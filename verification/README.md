# Verified models of the BaiduPCS-Rust core

BaiduPCS-Rust is a network-disk client: a backend that downloads, uploads and backs up files, and a
command line tool that decrypts what the backend encrypted. This project models the parts of it whose
correctness depends on state, arithmetic or the order of steps, and proves what they are for.

- **Task slots** (`SlotModel`, `SlotPool`, `SlotGrants`, `SlotInvariants`, `SlotRuns`, `SlotLaws`,
  `SlotKeepAlive`, `SlotLaterSlots`).
  A pool of fixed and borrowed slots with priorities, preemption, live resizing, a folder index and
  reclamation of slots that have been silent for 30 minutes. `SlotPool.TaskSlotPool` is the object with
  its loops; `SlotModel` gives each operation as a function on values; the other modules prove what
  holds over whole runs. One method call is one atomic step and the clock is an argument.
- **Accounts** (`AccountDisk`, `AccountManager`, `AccountRecovery`, `AccountLaws`). Account operations, the
  write-temporary / roll-backup / rename save, and the start-up recovery chain. A save or a recovery is
  the list of disks it passes through (half-written files included), so a crash is any of them, and
  file operations may also fail, in ordinary saves and during start-up.
- **Scan cache** (`ScanCache`). A write buffer in front of a keyed table, proved to be one plain map.
- **Encrypted files** (`Bytes`, `FileFormat`, `DecryptFile`, `EditedFiles`). The binary format, its parser as it runs,
  chunk nonces, decryption with one or several keys, and the way back from what the backend writes.
  The ciphers are an abstract pair of functions.
- **Names** (`Text`, `Paths`, `MirrorNames`, `UniquePath`). Paths by components, output names of a
  directory decryption, its walk and summary, and `base (k).ext` renaming.
- **Backup configurations** (`RemotePath`, `ConfigConflicts`). Path normalisation, overlap by segments,
  conflict validation, and the store that validates every create and update.
- **Object storage** (`ListResponse`, `RequestSigning`). Scanning a listing response, percent-encoding
  and header order.
- **Counters** (`ProxyFallback`, `MemoryMonitor`, `ProgressThrottler`). The failure counter and the
  peak record under every interleaving of their atomic steps, the sample window, and event throttling.

What an operation computes is also told without its loops, on plain fields, files and characters: in
`SlotLaws` and `AccountLaws`, and in the lemmas whose names end in `Means` elsewhere.

`Prelude` holds the shared datatypes. `dafny verify dfyconfig.toml` checks everything.

## Findings

Places where the code does not do what one might expect, each with the exact condition proved:

- A clean-up that releases only some of a folder's slots forgets the folder's other borrowed slots: the
  index stays exact just when no clean-up splits a folder (`SlotRuns.CleanupKeeps`), and a run from a
  new pool does split one (`SlotRuns.CleanupCanForget`).
- Progress callbacks refresh only the first of a task's slots. From any grant in a reachable pool on, as
  long as the task is punctual, takes nothing more and holds its first slot, a clean-up takes a slot from
  it just when one of its later slots below the limit was stamped 30 minutes ago or more, whatever others
  do (`SlotLaterSlots.LaterSlotsAreReaped`). For a folder that borrows all its slots at once this is half
  an hour after the loan (`SlotLaterSlots.FirstLoanExpires`). It happens from a new pool, to a folder with
  two loans and to one with a main slot and a loan (`SlotLaterSlots.TwoSlotsAreNotKept`,
  `SlotLaterSlots.LoanBesideMainIsNotKept`).
- A rolling save over a corrupt main file with a good backup has a crash point that loses both
  (`AccountRecovery.RollingOverCorruptionIsUnsafe`). A start-up leaves the disk like that just when it
  found it so and could not write the accounts back, which it only logs
  (`AccountRecovery.FailedWriteBackStaysUnsafe`), and exactly then, unless the legacy files hold the same
  accounts, some later life of the program loses what was committed
  (`AccountRecovery.NothingCommittedIsLost`, `AccountRecovery.BackupCanBeLost`).
- The comment on `load` and the start-up chain treat a missing `accounts.json` differently
  (`AccountRecovery.LoadDisagrees`).
- `upsert_single` is overwritten by an older pending write with the same key and a different row, and
  only then (`ScanCache.SingleUpsertRefines`, `ScanCache.PendingWriteWins`).
- The chunked encryption path seals with AES even when the header announces ChaCha20, and such a file
  does not decrypt (`DecryptFile.ServiceFileRoundTrip`).
- One undecodable key ends the search for the right key (`DecryptFile.AnyKeyFindsTheKey`).
- Two different local path strings with equal segments do not count as overlapping
  (`RemotePath.RawOverlapIsPrefix`, `RemotePath.LocalOverlapCanBeMissed`).
- Successful decryption does not mean the original text: chunk nonces are taken from the file and the
  original size is never compared. When nothing can be forged, exactly the files made of an original's
  own chunks are accepted, in any order and number (`EditedFiles.AcceptedEdits`), so files can be cut or
  rearranged (`EditedFiles.ServiceFilesCanBeCut`, `EditedFiles.SwappedIsAccepted`). A file
  holds the original's chunks, and so decrypts to the original text, exactly when their number is right
  and each has the nonce of its position (`EditedFiles.OrderedNoncesMeanOriginal`).
- A proxy restore does not wipe the slate. Whatever stood before it and whatever runs in and after it, it
  is followed by a fallback just when some later decision is made on a count of three or more while the
  flag was last stored as false; if fewer than three failures follow its second store, that is a decision
  on such a count in the window between its two stores, or a later one on such a count held since before
  the second store (`ProxyFallback.RestoreTriggersAgain`). Both happen from the start
  (`ProxyFallback.RestoreCanTriggerAgain`), also after a fallback that was marked without reaching the
  threshold (`ProxyFallback.MarkedFallbackKeepsCount`).

## Model

| member | source | states |
|---|---|---|
| SlotPool.TaskSlotPool.constructor | backend/src/task_slot_pool.rs:154-166 | a new pool has slots 0 up to the limit, all free, and an empty index |
| SlotPool.TaskSlotPool.Resize | backend/src/task_slot_pool.rs:203-256 | growing appends only missing ids and sorts, shrinking drops free slots beyond the limit; the whole new state |
| SlotPool.TaskSlotPool.AllocateFixedSlot | backend/src/task_slot_pool.rs:266-283 | first free slot below the limit or nothing; the whole new state |
| SlotPool.TaskSlotPool.AllocateFixedSlotWithPriority | backend/src/task_slot_pool.rs:299-339 | first free slot, else first backup slot with its displaced owner, else nothing |
| SlotPool.TaskSlotPool.AllocateBackupSlot | backend/src/task_slot_pool.rs:347-365 | a backup task takes a free slot and never preempts |
| SlotPool.TaskSlotPool.CountSlots | backend/src/task_slot_pool.rs:399-428 | the counting queries count exactly the slots passing their test |
| SlotPool.TaskSlotPool.GrabPass | backend/src/task_slot_pool.rs:451-483 | one borrowing loop with its early exit |
| SlotPool.TaskSlotPool.AllocateBorrowedSlots | backend/src/task_slot_pool.rs:441-498 | slots granted, tasks displaced, index extended |
| SlotPool.TaskSlotPool.AllocateBorrowedSlotsNoPreempt | backend/src/task_slot_pool.rs:510-546 | slots granted from idle ones only, index extended |
| SlotPool.TaskSlotPool.ReleaseBorrowedSlot | backend/src/task_slot_pool.rs:553-576 | releases the slot if the folder owns it and drops the id from the folder's list |
| SlotPool.TaskSlotPool.ReleaseFixedSlot | backend/src/task_slot_pool.rs:582-591 | releases the task's first fixed slot |
| SlotPool.TaskSlotPool.ReleaseAllSlots | backend/src/task_slot_pool.rs:597-616 | releases every slot of the task and its index entry |
| SlotPool.TaskSlotPool.TouchSlot | backend/src/task_slot_pool.rs:714-730 | refreshes the first slot of the task; true exactly when there is one |
| SlotPool.TaskSlotPool.CleanupStaleSlots | backend/src/task_slot_pool.rs:738-812 | releases exactly the slots below the limit silent for 30 minutes, reports their owners, forgets those folders |
| SlotPool.SlotTouchThrottler.TryTouch | backend/src/task_slot_pool.rs:965-975 | refreshes at most every 30 seconds and remembers only successful refreshes |
| SlotGrants.AllocationGrants | backend/src/task_slot_pool.rs:299-339 | a prioritised allocation takes the first free slot, else (if allowed) the first backup slot and reports exactly its owner |
| SlotGrants.AllocationChanges | backend/src/task_slot_pool.rs:299-339 | nothing but the granted slot changes, and that slot becomes the task's |
| SlotGrants.BorrowGrants | backend/src/task_slot_pool.rs:399-498 | borrowing grants exactly min(count, available_borrow_slots), all free slots before any backup slot, and reports exactly the displaced owners |
| SlotGrants.BorrowChanges | backend/src/task_slot_pool.rs:453-480 | position by position, exactly the granted slots change hands |
| SlotGrants.BorrowIdleGrants | backend/src/task_slot_pool.rs:510-546 | without preemption the grant is the first min(count, available) free slots and nobody is displaced |
| SlotInvariants.CapacityIsConserved | backend/src/task_slot_pool.rs:411-428 | used plus available slots equal the limit |
| SlotInvariants.ListsAreDisjoint | backend/src/task_slot_pool.rs:484-489 | no slot is listed for two folders |
| SlotInvariants.LendingKeeps | backend/src/task_slot_pool.rs:484-489 | extending the index by freshly granted slots keeps it sound and exact |
| SlotRuns.ReleaseBorrowedKeeps | backend/src/task_slot_pool.rs:553-576 | releasing a borrowed slot keeps the index sound, duplicate-free and exact |
| SlotRuns.ReleaseAllKeeps | backend/src/task_slot_pool.rs:597-616 | releasing everything keeps the index sound and exact |
| SlotRuns.CleanupKeeps | backend/src/task_slot_pool.rs:738-809 | a clean-up always keeps the index sound, and keeps it exact just when it does not release part of a folder |
| SlotRuns.GrowIs | backend/src/task_slot_pool.rs:213-234 | growing keeps every slot and adds one free slot per missing id, ascending and without duplicates |
| SlotRuns.ResizeKeepsOccupied | backend/src/task_slot_pool.rs:196-200 | no resize changes, adds or removes an occupied slot |
| SlotRuns.StepKeeps | backend/src/task_slot_pool.rs:203-809 | every operation keeps the pool invariant, and index exactness except in a splitting clean-up |
| SlotRuns.ReachablePool | backend/src/task_slot_pool.rs:154-809 | over any run: ids ascending, complete below the limit, capacity conserved, index sound |
| SlotRuns.ReachableIndexIsExact | backend/src/task_slot_pool.rs:788-792 | the index is exact throughout a run if and only if no clean-up of the run releases part of a folder |
| SlotRuns.CleanupCanForget | backend/src/task_slot_pool.rs:788-792 | a run from a new pool whose clean-up releases one of a folder's two slots and forgets the other |
| SlotRuns.TenancyThroughStep | backend/src/task_slot_pool.rs:89-96 | an occupied non-backup slot survives every operation that does not release or expire it |
| SlotRuns.TenancyThroughRun | backend/src/task_slot_pool.rs:299-498 | over whole runs no allocation changes the owner of an occupied non-backup slot |
| SlotRuns.ReleaseUndoesBorrow | backend/src/task_slot_pool.rs:510-616 | releasing all slots restores the pool from before an idle borrow |
| SlotRuns.ReleaseUndoesAllocation | backend/src/task_slot_pool.rs:299-591 | releasing the fixed slot restores the pool from before an allocation that displaced nobody |
| SlotLaws.CleanupFreesSilent | backend/src/task_slot_pool.rs:738-809 | a clean-up empties exactly the slots below the limit silent for half an hour, reports their owners in list order, and drops exactly these owners' index entries |
| SlotLaws.NothingSilentAfterCleanup | backend/src/task_slot_pool.rs:738-809 | in any reachable pool, right after a clean-up no occupied slot below the limit has been silent for half an hour |
| SlotLaws.ResizeMeans | backend/src/task_slot_pool.rs:203-256 | after a resize the limit is the one asked for, used plus available slots equal it, and the list is exactly the slots that belong there |
| SlotLaws.LeftoversStay | backend/src/task_slot_pool.rs:208-256 | a run in which an empty slot beyond the limit stays in the list after a resize that does not shrink |
| SlotLaws.IdleSlotIsGiven | backend/src/task_slot_pool.rs:266-385 | every allocation takes the first idle slot below the limit, with the task, kind, priority and times it asks for, and changes nothing else |
| SlotLaws.BackupSlotIsTaken | backend/src/task_slot_pool.rs:299-339 | without an idle slot a normal task or subtask takes the first backup slot and its owner is reported |
| SlotLaws.NothingIsGiven | backend/src/task_slot_pool.rs:266-385 | otherwise nothing happens |
| SlotLaws.BorrowMeans | backend/src/task_slot_pool.rs:441-507 | idle slots first, then backup slots, both in list order, are lent to the folder and listed for it; exactly the backup owners are displaced |
| SlotLaws.BorrowIdleMeans | backend/src/task_slot_pool.rs:510-545 | the first idle slots are lent and listed, nobody is displaced |
| SlotLaws.ReleaseBorrowedMeans | backend/src/task_slot_pool.rs:548-580 | the slot with that id is emptied if the folder owns it, and the id leaves the folder's list, the others keeping their order |
| SlotLaws.ReleaseFixedMeans | backend/src/task_slot_pool.rs:582-591 | the first fixed slot of the task is emptied, nothing else changes |
| SlotLaws.ReleaseAllMeans | backend/src/task_slot_pool.rs:597-616 | every slot of the task is emptied and its list goes |
| SlotLaws.TouchMeans | backend/src/task_slot_pool.rs:714-730 | the first slot of the task is stamped, nothing else changes |
| SlotLaws.BeatMeans | backend/src/task_slot_pool.rs:946-975 | a callback refreshes unless half a minute has not passed or there is no slot, and remembers only a refresh |
| SlotLaws.QueriesMean | backend/src/task_slot_pool.rs:399-435 | the counting queries give the numbers of idle, occupied and borrowable slots below the limit |
| SlotKeepAlive.CleanupSpares | backend/src/task_slot_pool.rs:746-778 | a clean-up does not report a task whose callback fired within the gap |
| SlotKeepAlive.StepKeepsAlive | backend/src/task_slot_pool.rs:714-975 | every operation by anybody keeps the bookkeeping the keep-alive argument needs |
| SlotKeepAlive.KeepAliveFromStart | backend/src/task_slot_pool.rs:714-975 | a task with at most one slot, its throttler created at most d after it and callbacks at gaps of at most 29 min 30 s less d, never loses a slot to a clean-up, over any run |
| SlotKeepAlive.GapIsTight | backend/src/task_slot_pool.rs:22-26 | for every d, one nanosecond more of silence and the slot can be lost |
| SlotLaterSlots.LaterSlotsAreReaped | backend/src/task_slot_pool.rs:714-809 | for any grant in any reachable pool, any operations of others and punctual callbacks: while the first slot is held, a clean-up takes a slot if and only if a later slot held since the grant and below the limit was stamped 30 minutes ago or more |
| SlotLaterSlots.FirstSlotIsKept | backend/src/task_slot_pool.rs:714-809 | a punctual task that gives nothing back keeps its first slot unless it is a backup slot |
| SlotLaterSlots.FirstLoanExpires | backend/src/task_slot_pool.rs:441-540 | a folder that borrows all its slots at once loses one if and only if 30 minutes have passed since the loan and a slot after the first is still held below the limit |
| SlotLaterSlots.LoanBesideMainIsNotKept | backend/src/downloader/folder_manager.rs:2413-2494 | a folder with a main slot and a loan in a new pool loses the loan after half an hour, whatever its callbacks did |
| SlotLaterSlots.LapsedIsTaken | backend/src/task_slot_pool.rs:738-809 | while the first slot is tracked, a clean-up takes a slot exactly when one of the later slots held before has expired |
| SlotLaterSlots.OthersKeep | backend/src/task_slot_pool.rs:299-616 | an operation that leaves a task its first slot and allocates nothing for it leaves that slot as it was and gives the task nothing new |
| SlotLaterSlots.BeatsTouchFirst | backend/src/task_slot_pool.rs:714-730 | any series of callbacks stamps the task's first slot and changes nothing else |
| SlotLaterSlots.TwoSlotsAreNotKept | backend/src/task_slot_pool.rs:714-809 | a folder that borrows two slots of a new pool loses one after half an hour, whatever its callbacks did |
| AccountManager.Manager.SaveInner | backend/src/auth/account_manager.rs:141-191 | the exact sequence of disks a save passes through, with failing or torn file operations |
| AccountManager.Manager.AddUser | backend/src/auth/account_manager.rs:196-211 | replaces or appends the user, activates the first one, saves with a rolled backup |
| AccountManager.Manager.SetActive | backend/src/auth/account_manager.rs:216-225 | refuses an unknown uid, otherwise sets and saves |
| AccountManager.Manager.UpdateUserCustomConfig | backend/src/auth/account_manager.rs:228-246 | one user's configuration changes and is saved; an unknown uid, a save and a failed save are told apart |
| AccountManager.Manager.DeleteUser | backend/src/auth/account_manager.rs:249-265 | removes the user, moves the active account to the first remaining one, saves |
| AccountManager.StartUp | backend/src/auth/account_manager.rs:313-398 | the recovery chain with failing file operations: which accounts it finds, every disk it passes through, and that it fails only when legacy accounts cannot be written |
| AccountManager.Load | backend/src/auth/account_manager.rs:38-101 | the shorter chain, failing exactly when both account files are corrupt |
| AccountRecovery.SavePoint | backend/src/auth/account_manager.rs:153-189 | what any disk reached inside a save may look like |
| AccountRecovery.CrashInSave | backend/src/auth/account_manager.rs:116-189 | after a crash at any file step of a save, recovery yields the old or the new accounts |
| AccountRecovery.SaveCommits | backend/src/auth/account_manager.rs:141-191 | a successful save puts the new accounts in place, a failed one leaves the old ones recoverable |
| AccountRecovery.RollingOverCorruptionIsUnsafe | backend/src/auth/account_manager.rs:127-137 | the exact condition under which a rolling save is crash safe |
| AccountRecovery.CrashInRecovery | backend/src/auth/account_manager.rs:313-488 | every disk reached inside recovery, whichever file operations fail, recovers to the same accounts and keeps the backup |
| AccountRecovery.RecoveryIsIdempotent | backend/src/auth/account_manager.rs:297-398 | a second recovery does nothing; the first leaves the backup alone and the accounts in place |
| AccountRecovery.FailedWriteBackStaysUnsafe | backend/src/auth/account_manager.rs:350-363 | a start-up with failing file operations finds the same accounts; it leaves a disk safe for rolling saves if and only if it found one or its write-back succeeded |
| AccountRecovery.BackupCanBeLost | backend/src/auth/account_manager.rs:158-204 | after a failed write-back, a save that dies between its steps loses all accounts |
| AccountRecovery.InterruptedRecovery | backend/src/auth/account_manager.rs:313-488 | recovery cut short or failing any number of times and rerun ends with the accounts of an uninterrupted one |
| AccountRecovery.ApplyKeepsWellFormed | backend/src/auth/account_manager.rs:196-265 | uids stay distinct and the active uid stays unset or a member |
| AccountRecovery.OperationsTouchOneAccount | backend/src/auth/account_manager.rs:196-265 | seen by uid, each operation writes, changes or removes exactly one entry; when the active account changes |
| AccountLaws.RefusedIs | backend/src/auth/account_manager.rs:206-263 | an operation is refused exactly when it selects, configures or deletes an account that is not there |
| AccountLaws.AddUserMeans | backend/src/auth/account_manager.rs:206-225 | a known account is replaced in place, a new one comes last, and only the first one becomes active |
| AccountLaws.SetConfigMeans | backend/src/auth/account_manager.rs:228-246 | one account's configuration changes and nothing else |
| AccountLaws.DeleteUserMeans | backend/src/auth/account_manager.rs:248-265 | one account goes, the others keep their order, and the first one left becomes active if the active one went |
| AccountLaws.ActiveAfterDelete | backend/src/auth/account_manager.rs:248-265 | for any list: after deleting the active account the first account with another uid is active, or none |
| AccountLaws.SaveSteps | backend/src/auth/account_manager.rs:141-191 | the six disks of an undisturbed rolling save |
| AccountLaws.FirstReadableWins | backend/src/auth/account_manager.rs:313-398 | start-up finds the accounts of the first readable of four files |
| AccountLaws.StartUpFailsWhen | backend/src/auth/account_manager.rs:400-488 | a start-up fails exactly when only a legacy file can be read and its accounts cannot be written |
| AccountLaws.MigrationMeans | backend/src/auth/account_manager.rs:455-480 | the session file is renamed after a migration unless a migrated one is there |
| AccountLaws.LoadMeans | backend/src/auth/account_manager.rs:38-101 | what the shorter chain reads and when it fails |
| AccountRecovery.NextIsConsistent | backend/src/auth/account_manager.rs:141-398 | one call, crash or restart keeps the durable state consistent and accounts for the data in memory |
| AccountRecovery.NothingCommittedIsLost | backend/src/auth/account_manager.rs:116-398 | no life after a start-up loses committed accounts, with file operations failing in saves and in every start-up, if and only if the disk was guarded or the start-up wrote the accounts back |
| AccountRecovery.UnguardedLoses | backend/src/auth/account_manager.rs:158-189 | from an unguarded disk one death inside a save loses the committed accounts and the new ones |
| AccountRecovery.BackupIsPreviousSave | backend/src/auth/account_manager.rs:116-189 | after successful calls the file equals memory and the backup is the save before the last |
| AccountRecovery.CorruptionLosesOneSave | backend/src/auth/account_manager.rs:346-363 | corrupting the main file alone loses at most the last save and recovery keeps the backup |
| AccountRecovery.LoadDisagrees | backend/src/auth/account_manager.rs:26-101 | exactly when the shorter chain and start-up find different accounts |
| ScanCache.ScanCacheManager.Flush | backend/src/autobackup/scan_cache.rs:192-236 | pending entries reach the table in order, the buffer empties, the flush time advances only then |
| ScanCache.ScanCacheManager.BatchUpsert | backend/src/autobackup/scan_cache.rs:162-189 | entries are buffered and flushed at 100 pending or after 3 seconds |
| ScanCache.ScanCacheManager.FindChangedFiles | backend/src/autobackup/scan_cache.rs:88-159 | the 500-wide chunked comparison equals one unchunked order-preserving filter |
| ScanCache.ScanCacheManager.DeleteByConfig | backend/src/autobackup/scan_cache.rs:239-250 | removes and counts exactly the rows of the configuration, pending ones included |
| ScanCache.ScanCacheManager.DeleteByPath | backend/src/autobackup/scan_cache.rs:253-261 | removes one row and tells whether it was there |
| ScanCache.SingleUpsertRefines | backend/src/autobackup/scan_cache.rs:264-281 | a single upsert acts like a plain map write if and only if no pending write for its key disagrees |
| ScanCache.PendingWriteWins | backend/src/autobackup/scan_cache.rs:264-281 | from an empty cache, an older pending row replaces the newer one written past the buffer |
| ScanCache.StepRefines | backend/src/autobackup/scan_cache.rs:88-281 | each call has the effect and reply of the same call on a plain map; fewer than 100 stay pending |
| ScanCache.CacheRefinesMap | backend/src/autobackup/scan_cache.rs:1-6 | any sequence of calls at any times replies like one plain map |
| ScanCache.FlushTimesAreInvisible | backend/src/autobackup/scan_cache.rs:178-186 | runs that flush at different moments cannot be told apart |
| ScanCache.ChangedFilesAre | backend/src/autobackup/scan_cache.rs:135-147 | exactly the new or differing files are returned |
| ScanCache.ChangedInParts | backend/src/autobackup/scan_cache.rs:102-148 | comparing in pieces and joining is comparing the whole |
| ScanCache.OneFileChanged | backend/src/autobackup/scan_cache.rs:88-160 | a file is new when its key is absent and changed when time or size differ |
| ScanCache.LastEntryWins | backend/src/autobackup/scan_cache.rs:162-237 | the last entry for a key decides its row, other keys keep theirs |
| ScanCache.BatchIsFlushedWhen | backend/src/autobackup/scan_cache.rs:162-190 | a batch is written through at 100 pending entries or three seconds, and until then the table stays |
| ScanCache.DeleteByConfigMeans | backend/src/autobackup/scan_cache.rs:239-251 | exactly the configuration's rows go and are counted |
| ScanCache.DeleteByPathMeans | backend/src/autobackup/scan_cache.rs:253-261 | exactly the path's row goes |
| FileFormat.Reader.ReadExact | decrypt-cli/src/file_parser.rs:53-59 | exactly n bytes or the end-of-input error |
| FileFormat.ReadHeader | decrypt-cli/src/file_parser.rs:50-100 | the 31-byte header with its checks |
| FileFormat.ChunkReader.ReadNextChunk | decrypt-cli/src/file_parser.rs:160-218 | one chunk, its three ways to be incomplete, the size limit, and the end of the list |
| FileFormat.ParseEncodedFile | decrypt-cli/src/file_parser.rs:5-21 | parsing an encoded header and n chunks returns them and the remaining bytes |
| FileFormat.EncodeParsedFile | decrypt-cli/src/file_parser.rs:50-218 | a successful parse means the consumed bytes are that encoding |
| FileFormat.PrefixIsRejected | decrypt-cli/src/file_parser.rs:53-214 | every strict prefix of an encoded file is rejected |
| FileFormat.DeriveChunkNonce | decrypt-cli/src/file_parser.rs:237-245 | the last four nonce bytes are combined with the little-endian index |
| FileFormat.TailReadsBack | decrypt-cli/src/file_parser.rs:237-245 | the index bytes can be read back from master and chunk nonce |
| FileFormat.NoncesAreDistinct | decrypt-cli/src/file_parser.rs:233-245 | no two 32-bit chunk indices share a nonce |
| FileFormat.HeaderLayout | decrypt-cli/src/file_parser.rs:5-21 | where each header field stands, byte by byte |
| FileFormat.ChunkLayout | decrypt-cli/src/file_parser.rs:160-218 | where each chunk field stands |
| FileFormat.HeaderIsRefused | decrypt-cli/src/file_parser.rs:50-100 | exactly the headers that are refused, and with which error |
| FileFormat.ChunkIsRefused | decrypt-cli/src/file_parser.rs:160-218 | exactly the chunks that are refused, and with which error |
| FileFormat.NonceLayout | decrypt-cli/src/file_parser.rs:237-245 | every byte of a chunk nonce |
| Bytes.XorBit | decrypt-cli/src/file_parser.rs:240-244 | a bit of the combination is set exactly where the two differ |
| Bytes.FromToLe | decrypt-cli/src/file_parser.rs:81-89 | a number that fits survives its little-endian bytes |
| Bytes.ToFromLe | decrypt-cli/src/file_parser.rs:81-89 | bytes are the little-endian form of the number they stand for |
| DecryptFile.DecryptBytes | decrypt-cli/src/decrypt_engine.rs:50-108 | header, key and chunks in order; the plaintext or the first error |
| DecryptFile.DecryptWithAnyKey | decrypt-cli/src/decrypt_engine.rs:189-223 | only a failed opening moves on to the next key; any other error ends the search |
| DecryptFile.DecryptionInverts | backend/src/encryption/service.rs:151-201 | what is encrypted under the announced algorithm decrypts to itself, for every size the format can hold |
| DecryptFile.WrongKeyFails | decrypt-cli/src/decrypt_engine.rs:126-133 | a non-empty file does not open under a key that rejects its chunks |
| DecryptFile.ServiceFileRoundTrip | backend/src/encryption/service.rs:164-196 | files of the chunked service path decrypt if and only if AES was announced or they are empty |
| DecryptFile.AnyKeyFindsTheKey | decrypt-cli/src/decrypt_engine.rs:174-223 | several keys recover a file exactly when its key is among them and no key before it is undecodable; an empty file exactly when the first key decodes |
| DecryptFile.FlatPieces | backend/src/encryption/service.rs:172-183 | the 16 MiB pieces joined are the input |
| DecryptFile.HeaderComesFirst | decrypt-cli/src/decrypt_engine.rs:60-83 | a bad header decides before an unusable key |
| DecryptFile.FirstBadChunkDecides | decrypt-cli/src/decrypt_engine.rs:110-170 | then the first chunk that cannot be read or does not open decides the error |
| DecryptFile.FirstDecidingKeyAnswers | decrypt-cli/src/decrypt_engine.rs:189-223 | the first attempt that is not a failed opening is the answer, or a failed opening when all are |
| DecryptFile.PiecesAreFull | backend/src/encryption/service.rs:172-183 | every piece but the last has 16 MiB |
| EditedFiles.DecryptedIs | decrypt-cli/src/decrypt_engine.rs:50-108 | any bytes decrypt exactly when they parse and every announced chunk opens, to the opened chunks in the order they stand |
| EditedFiles.AcceptedEdits | decrypt-cli/src/decrypt_engine.rs:50-145 | without forgery a file is accepted if and only if its announced chunks are all chunks of the original; the text is then their pieces in that order |
| EditedFiles.OrderedNoncesMeanOriginal | decrypt-cli/src/file_parser.rs:160-245 | an accepted file holds the original's chunks exactly when the count is right and each nonce is that of its position, and then decrypts to the original text |
| EditedFiles.RearrangedIsAccepted | decrypt-cli/src/decrypt_engine.rs:50-145 | any chunks of a file in any order and number are accepted |
| EditedFiles.TruncatedIsAccepted | decrypt-cli/src/decrypt_engine.rs:94-108 | a file without its last chunk is accepted |
| EditedFiles.SwappedIsAccepted | decrypt-cli/src/decrypt_engine.rs:94-108 | a file with its two chunks exchanged is accepted |
| EditedFiles.ServiceFilesCanBeCut | backend/src/encryption/service.rs:151-201 | every non-empty file the service writes has a cut one that is accepted with a shorter text |
| EditedFiles.ServiceSealsInPlace | backend/src/encryption/service.rs:172-196 | the service seals each piece under the nonce of its position |
| MirrorNames.DirectoryRun.GetUniqueName | decrypt-cli/src/decrypt_engine.rs:411-442 | terminates with the name or the smallest-numbered free candidate, and remembers it |
| MirrorNames.DirectoryRun.BuildOutputPath | decrypt-cli/src/decrypt_engine.rs:370-406 | where a file goes in mirror and in default mode |
| MirrorNames.DirectoryRun.ProcessFile | decrypt-cli/src/decrypt_engine.rs:291-365 | every outcome of one file and how it is reported |
| MirrorNames.DirectoryRun.ProcessDirectory | decrypt-cli/src/decrypt_engine.rs:261-288 | the recursive walk and its early end |
| MirrorNames.DecryptDirectory | decrypt-cli/src/decrypt_engine.rs:237-258 | the whole run, an aborted walk counting as one more failure |
| MirrorNames.FirstFree | decrypt-cli/src/decrypt_engine.rs:431-441 | the smallest free number exists and is at most the count of used names |
| MirrorNames.KeysAreDistinct | decrypt-cli/src/decrypt_engine.rs:432-434 | the numbered candidates are pairwise distinct as full paths |
| MirrorNames.MirrorOutputsAreDistinct | decrypt-cli/src/decrypt_engine.rs:385-442 | in mirror mode no two files of a run are sent to the same path string |
| MirrorNames.MirrorFilesAreDistinct | decrypt-cli/src/decrypt_engine.rs:385-442 | and no two to the same file, when directories and original names are file names |
| MirrorNames.SpellingsCollide | decrypt-cli/src/decrypt_engine.rs:411-442 | the original names a and ./a are kept as different strings for one file |
| MirrorNames.EveryFileIsReported | decrypt-cli/src/decrypt_engine.rs:237-365 | the summary's inputs are exactly the regular files of the tree in walk order, each once; when something cannot be read, those before it and then the input directory as failed |
| MirrorNames.RunIsSummarised | decrypt-cli/src/decrypt_engine.rs:237-442 | over a whole run every file has, in walk order, the result that says what happened to it, and every file handed to the decryption has its path: its own name or smallest free candidate in its own directory, or its original place |
| MirrorNames.CandidateKeepsExtension | decrypt-cli/src/decrypt_engine.rs:424-434 | the number stands in front of the last dot, or at the end |
| MirrorNames.DefaultPlace | decrypt-cli/src/decrypt_engine.rs:385-406 | outside mirror mode a file goes to its original path without leading slashes and backslashes |
| MirrorNames.BeforeIs | decrypt-cli/src/decrypt_engine.rs:261-288 | the files before the early end are the first ones of the walk, up to the first entry that cannot be read |
| UniquePath.GenerateUniquePath | backend/src/common/path_utils.rs:19-69 | the original or the smallest-numbered free candidate, an error exactly when 9999 are taken |
| UniquePath.ParseUndoesRender | backend/src/common/path_utils.rs:71-104 | parsing undoes rendering, for every number, exactly for names as parsing produces them |
| UniquePath.ParsedIsCanonical | backend/src/common/path_utils.rs:79-104 | parsing always produces such names |
| UniquePath.RenamedHasSameCandidates | backend/src/common/path_utils.rs:13-16 | calling the function on one of its own results tries the same paths, for every path |
| UniquePath.SplitOfCandidate | backend/src/common/path_utils.rs:27-58 | a candidate has the parent directory of the original and the numbered name |
| Paths.SplitKeepsPath | backend/src/common/path_utils.rs:27-37 | a path ending in a file name goes through its parent to that name |
| Paths.SplitUndoesJoin | backend/src/common/path_utils.rs:52-58 | splitting undoes joining a file name to a parent |
| Paths.ComponentsSplit | backend/src/common/path_utils.rs:52-58 | the components of two paths joined by a slash are those of the one followed by those of the other |
| UniquePath.CandidatesAreDistinct | backend/src/common/path_utils.rs:44-58 | different numbers give different paths |
| UniquePath.ParseMeans | backend/src/common/path_utils.rs:79-104 | reading a name loses nothing but a number at the end of its stem, and that exactly when there is one |
| UniquePath.CandidateIsNumbered | backend/src/common/path_utils.rs:44-58 | a name without a number keeps base and extension in every candidate |
| Paths.NameIsLastComponent | backend/src/common/path_utils.rs:27-37 | the file name is the last component, unless it leads upwards |
| RemotePath.NormalizeRemotePath | backend/src/autobackup/validation.rs:149-179 | the single-pass normalisation |
| RemotePath.NormalizeIsRender | backend/src/autobackup/validation.rs:142-148 | normalising is keeping the non-empty segments and writing them with single slashes |
| RemotePath.SegmentsOfRender | backend/src/autobackup/validation.rs:210-211 | segments written back are read back |
| RemotePath.NormalizeKeepsSegments | backend/src/autobackup/validation.rs:142-179 | segments are kept, and results are equal exactly when segments are |
| RemotePath.NormalizedShape | backend/src/autobackup/validation.rs:142-179 | leading slash, no double slash, no backslash, no trailing slash but the root, idempotent |
| RemotePath.OverlapIsSymmetric | backend/src/autobackup/validation.rs:204-236 | swapping the paths swaps ancestor and descendant |
| RemotePath.RemoteOverlapIsPrefix | backend/src/autobackup/validation.rs:192-236 | remote overlap is exactly the segment-prefix relation |
| RemotePath.RawOverlapIsPrefix | backend/src/autobackup/validation.rs:199-236 | on arbitrary strings it is that relation unless different strings have equal segments |
| RemotePath.LocalOverlapCanBeMissed | backend/src/autobackup/validation.rs:119-140 | a doubled slash in an unresolvable local path hides an overlap |
| RemotePath.NormalizeLocalMeans | backend/src/autobackup/validation.rs:119-140 | a local path is what it resolves to, with slashes for backslashes and none at its end |
| ConfigConflicts.Classify | backend/src/autobackup/validation.rs:286-358 | one round: whether and how a configuration clashes with the candidate |
| ConfigConflicts.ValidateConfigConflicts | backend/src/autobackup/validation.rs:273-377 | the clashing configurations in order and the reported kind |
| ConfigConflicts.VerdictIs | backend/src/autobackup/validation.rs:338-366 | a kind is reported whenever there is a clash, and which clash decides it |
| ConfigConflicts.AcceptsIs | backend/src/autobackup/validation.rs:273-377 | accepted exactly when no other configuration overlaps on both sides, whatever the directions |
| ConfigConflicts.KindMeans | backend/src/autobackup/validation.rs:308-358 | upload against download is a loop, otherwise an existing local path at or above the candidate is a parent and one below it a child |
| ConfigConflicts.DescribedMeans | backend/src/autobackup/validation.rs:318-358 | what is reported of each clash |
| ConfigConflicts.OneClash | backend/src/autobackup/validation.rs:286-308 | a configuration clashes when it is not the excluded one and both paths overlap |
| ConfigConflicts.CreateMeans | backend/src/autobackup/manager.rs:598-690 | a configuration is stored exactly when nothing stored clashes with it |
| ConfigConflicts.UpdateAndDeleteMean | backend/src/autobackup/manager.rs:692-830 | an update replaces the given texts exactly when no other stored configuration clashes with the result; a delete removes one |
| ConfigConflicts.StepKeepsFree | backend/src/autobackup/manager.rs:598-740 | creates, updates and deletes that go through keep the store free of conflicts |
| ConfigConflicts.FreeMeansExecutable | backend/src/autobackup/validation.rs:514-528 | a store is free of conflicts exactly when every stored configuration passes the check before execution |
| ConfigConflicts.StoredConfigsExecute | backend/src/autobackup/validation.rs:485-528 | after any run of validated creates and updates and deletes, every stored configuration is accepted for execution |
| ListResponse.ParseListResponse | backend/src/cloud_sync/storage.rs:284-317 | terminates with the objects, prefixes, truncation flag and token found by scanning |
| ListResponse.FindIsFirst | backend/src/cloud_sync/storage.rs:291-293 | the search returns the first occurrence |
| ListResponse.BlocksAreFound | backend/src/cloud_sync/storage.rs:290-303 | scanning a well-formed body finds exactly its blocks, in order |
| ListResponse.ExtractIsLookup | backend/src/cloud_sync/storage.rs:319-325 | extracting a tag is looking up the first field with that tag |
| ListResponse.ListedObjectsAreParsed | backend/src/cloud_sync/storage.rs:284-303 | n well-formed Contents blocks, with any plain text between their fields, yield exactly those n objects in order |
| ListResponse.ListedPrefixesAreParsed | backend/src/cloud_sync/storage.rs:305-313 | the same for CommonPrefixes |
| ListResponse.ObjectMeans | backend/src/cloud_sync/storage.rs:294-300 | key, size, date and tag of an object are those of its first such fields, with the defaults for missing and unreadable ones |
| ListResponse.PrefixMeans | backend/src/cloud_sync/storage.rs:305-313 | a prefix is the text of the first prefix field |
| ListResponse.SizeMeans | backend/src/cloud_sync/storage.rs:296 | a plus sign does not count, and only digits within 64 bits are a size |
| ListResponse.SizesAreRead | backend/src/cloud_sync/storage.rs:296 | every 64-bit size comes back from its decimal form, larger ones do not |
| RequestSigning.UrlEncode | backend/src/cloud_sync/storage.rs:265-274 | percent-encoding octet by octet |
| RequestSigning.DecodeUndoesEncode | backend/src/cloud_sync/storage.rs:265-274 | encoding loses nothing |
| RequestSigning.EncodedAlphabet | backend/src/cloud_sync/storage.rs:269 | only the unreserved set of section 2.3 of RFC 3986 and percent signs appear |
| RequestSigning.SignedMatchCanonical | backend/src/cloud_sync/storage.rs:63-71 | the signed header list names the canonical headers in their order |
| RequestSigning.NamesAreSorted | backend/src/cloud_sync/storage.rs:66-70 | header names come in ascending order, a permutation of those given |
| RequestSigning.OctetMeans | backend/src/cloud_sync/storage.rs:265-274 | unreserved octets stay, every other becomes a percent sign and two upper-case hexadecimal digits |
| RequestSigning.LessMeans | backend/src/cloud_sync/storage.rs:66-70 | names are ordered by the first character in which they differ |
| RequestSigning.HeadersAreKept | backend/src/cloud_sync/storage.rs:63-71 | sorting keeps every header with its value |
| ProxyFallback.ProxyFallbackManager.RecordFailure | backend/src/common/proxy_fallback.rs:148-158 | the addition and the compare-exchange in a row |
| ProxyFallback.ProxyFallbackManager.RecordSuccess | backend/src/common/proxy_fallback.rs:163-165 | resets the counter |
| ProxyFallback.ProxyFallbackManager.MarkFallenBack | backend/src/common/proxy_fallback.rs:188-196 | sets the flag and the runtime status |
| ProxyFallback.ProxyFallbackManager.MarkRestored | backend/src/common/proxy_fallback.rs:201-207 | clears the flag, then the counter, and records the time and the status |
| ProxyFallback.ProxyFallbackManager.CheckAndIncrementFlap | backend/src/common/proxy_fallback.rs:218-229 | a fallback within 300 s of a restore counts as a flap, a later one resets the count, none without a restore |
| ProxyFallback.ProxyFallbackManager.OnUserConfigChange | backend/src/common/proxy_fallback.rs:234-252 | the probe is cancelled, the new proxy kept and everything else reset, the flag before the counter |
| ProxyFallback.AtMostOneTrigger | backend/src/common/proxy_fallback.rs:144-158 | under every interleaving at most one call returns true between clears of the flag |
| ProxyFallback.ExactlyOneTrigger | backend/src/common/proxy_fallback.rs:151-154 | while nobody overwrites a clear flag, exactly one call returns true once the threshold is reached |
| ProxyFallback.CounterIsReal | backend/src/common/proxy_fallback.rs:149-165 | in every run the counter is the number of failures since the last reset, modulo 2^32 |
| ProxyFallback.CountsAreReal | backend/src/common/proxy_fallback.rs:149-158 | every count a thread still holds was that number when it was taken |
| ProxyFallback.TriggerNeedsFailures | backend/src/common/proxy_fallback.rs:148-165 | a call returns true only after at least three failures since some reset |
| ProxyFallback.OldCountsTrigger | backend/src/common/proxy_fallback.rs:148-158 | with too few new failures a call returns true if and only if one decides, the flag stored as false, on a count at the threshold from before |
| ProxyFallback.OpenDecisionsTrigger | backend/src/common/proxy_fallback.rs:148-158 | in any run, resets and overwritten flags included, a call returns true if and only if some decision is made on a count at the threshold while the flag was last stored as false |
| ProxyFallback.RestoreTriggersAgain | backend/src/common/proxy_fallback.rs:201-203 | for every restore, whatever precedes it, runs between its stores and follows it: exactly when it is followed by a fallback |
| ProxyFallback.OneFailureTriggers | backend/src/common/proxy_fallback.rs:148-158 | one failure on a clear flag triggers if and only if it brings the counter to the threshold |
| ProxyFallback.RestoreCanTriggerAgain | backend/src/common/proxy_fallback.rs:201-203 | runs from the start: a failure between the two stores of a restore triggers, and so does a count held across them |
| ProxyFallback.MarkedFallbackKeepsCount | backend/src/common/proxy_fallback.rs:188-203 | a run in which a fallback marked with one failure counted is followed, in the window, by a new one after two more |
| MemoryMonitor.PeakIsMaximum | backend/src/common/memory_monitor.rs:189-209 | under every interleaving the peak never decreases, is 0 or submitted, and ends as the maximum |
| MemoryMonitor.StepKeepsInv | backend/src/common/memory_monitor.rs:189-209 | each atomic step keeps the argument's invariant and does not lower the peak |
| MemoryMonitor.MemoryMonitor.UpdatePeak | backend/src/common/memory_monitor.rs:189-209 | alone, the loop ends with the larger of old peak and value after any number of spurious failures |
| MemoryMonitor.MemoryMonitor.TakeSample | backend/src/common/memory_monitor.rs:166-186 | the window holds the latest samples within its bound and the peak is that of all samples |
| MemoryMonitor.LastOfMeans | backend/src/common/memory_monitor.rs:166-186 | the window ends where the history ends and has at most its bound |
| ProgressThrottler.ProgressThrottler.ShouldSend | backend/src/autobackup/events.rs:394-417 | held back only when both limits hold it, otherwise recorded in both maps |
| ProgressThrottler.ProgressThrottler.ForceSend | backend/src/autobackup/events.rs:420-426 | records in both maps |
| ProgressThrottler.KeysStayEqual | backend/src/autobackup/events.rs:394-438 | the two bookkeeping maps always know the same keys |
| ProgressThrottler.EventsArePaid | backend/src/autobackup/events.rs:394-417 | sent events split into those paid for by time and those paid for by bytes |
| ProgressThrottler.RateLimit | backend/src/autobackup/events.rs:394-417 | the number of events is at most 1 + elapsed/interval + growth/step |
| ProgressThrottler.HeldMeansRecent | backend/src/autobackup/events.rs:400-410 | exactly when an event is held back |
| ProgressThrottler.CallMeans | backend/src/autobackup/events.rs:394-438 | what each call records or forgets, and that nothing else changes |

## Left out

- TaskSlotPool: lock-level interleavings between the slot list and the folder index, overlapping resizes, the background clean-up loop, the warning at 20 minutes, the release notification channel and the debugging getters.
- Instants: the clock is an integer argument; nothing is assumed about it except where a theorem says it does not run backwards.
- UserAuth: profile and cookie fields are one opaque text; JSON is readable or corrupt as a whole.
- Scan cache: database errors, concurrent calls and the row id column.
- Encryption service: a piece is as much as one read returns, taken to be full 16 MiB until the end of the file; a shorter read would give more chunks than the header announces.
- Slot throttlers: one per task, replaced at each grant to it, where the download managers create one per child download, all for the folder's id.
- Ciphers: AES-GCM, ChaCha20-Poly1305 and base64 are an abstract pair of functions with the round trip and, where stated, rejection between two given keys.
- Decryption output: the partial output file left behind by a failed attempt, and read errors other than an early end.
- MirrorNames.DirectoryRun.GetUniqueName: the counter is unbounded where the source uses a 32-bit one; it is proved never to exceed the number of used names.
- Paths: non-UTF-8 names, Windows separators and case, and links between directories.
- Default (non-mirror) output mode: two records with the same original path overwrite each other there; only mirror mode promises distinct outputs.
- Local path resolution: canonicalisation is a function from strings to strings that does not change during a run.
- Configuration store: creates and updates are atomic steps, where the source checks a snapshot and inserts later without a lock, and an update keeps an entry of the concurrent map open while it iterates the same map; ids of new configurations are assumed fresh (random UUIDs), and the user-facing messages, services and persistence around the store are not modelled; an update that fails after validation has already changed the paths, which the model shows as an update.
- Listing responses: UTF-8 repair, nested elements inside a block, XML entities, and the date format, which is a function from texts to dates or none.
- Request signing: hashes, the credential scope and the canonical request text; lower-casing and trimming of header names and values happen before the modelled sort.
- Proxy fallback: probing itself with its intervals and status, hot updates and status texts.
- Memory monitor: reset, anomaly detection and reading the process size.
- Progress throttler: floating-point speed and time estimates.
- cloud_sync jobs, HTTP routes, login flows, the command line and the frontend: input and output around the modelled parts.
