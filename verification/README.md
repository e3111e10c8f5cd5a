# A verified model of the PS14 integrity monitor

This project models the parts of PS14 that detect and undo tampering, the worker pool they
run on, and the small registries around them, and proves what those parts keep over whole
runs. Addresses are indices into a byte array, addresses of list nodes are Dafny objects,
and clocks, allocation, system calls and the thread schedule are parameters.

- **Hashes** (`Crc32`, `LaneHash`, `Hash`; with `Words`, `Folds`, `Interleave`). The CRC-32
  of section 8 of RFC 1952, as the table-driven loop of the source and as a bit-serial
  reference, and the two interleaved folds which the source calls md5 and sha256. The names
  are misleading: neither follows RFC 1321 or FIPS 180-4, and the model follows the code.
  All three are proved to tell apart messages that differ inside a small window, and the
  widths of these windows are proved exact.
- **Detection and repair** (`MemoryScanner`, `MemoryRepair`, `Repairer`, `RepairRuns`,
  `Starvation`). The
  region scanner and the backup list over real linked nodes, the functions that specify
  them, what one repair pass and any number of passes do, and whole runs in which memory is
  also written from outside.
- **Worker pool** (`ThreadPool`, `TaskQueue`, `Counting`). An interleaved step system with
  one step for each lock, semaphore, event or flag operation, and the linked task list.
- **Registries**: the hash database and checksum table as maps (`HashDb`, `ChecksumDb`),
  the checkpoint history (`Checkpoints`), sessions (`Sessions`), the kernel event log
  (`EventLog`) and the page-protection registry (`MemoryGuard`), and the opcode scanners
  (`OpcodeScan`). `Lists`, `Search`, `CStrings` and `Counters` hold what they share.

Where a promise of the design does not hold of the code, the model keeps the code, gives the
input that breaks the promise and the exact condition under which it holds:

- repair passes look at 64 tampered regions, so regions without a backup can starve others
  (exactly when: `MemoryRepair.RepairedUnlessStarved`; a run in which it happens:
  `Starvation.StarvationHappens`);
- a shutdown can leave accepted tasks behind when every worker is between a failed wait and
  its event check (exactly then: `ThreadPool.DrainsUnlessAllInGap`; a run in which it happens:
  `ThreadPool.TaskCanBeLost`);
- the shutdown of a pool that was paused before its last signal and is never resumed can
  return, once all signals are released, exactly if every worker is in that gap or gone, or
  the semaphore was made with the maximum 0 (`ThreadPool.PausedShutdownReturns`; one worker
  that waits is enough: `ThreadPool.PausedShutdownHangs`);
- a region restored from a backup is reported at once, unchanged, exactly if its digest then
  is not the backup's, which a backup of its size rules out
  (`RepairRuns.ReportedAfterRestore`; two bytes and a backup of one:
  `RepairRuns.RestoredIsReported`);
- with a checkpoint limit of 0 or 1 the second create follows a null link
  (`Checkpoints.FaultsExactly`);
- a name or path is found after it was added exactly if it fits its field
  (`HashDb.FoundAfterAdd`, `ChecksumDb.FoundAfterAdd`); longer ones are entered again each
  time (`HashDb.LongNamesRepeat`, `ChecksumDb.LongPathsRepeat`);
- a session whose 64-bit expiry overflows is invalid from the start (`Sessions.BornValid`);
- a NOP sled in the last five bytes is seen by one scanner and not by the other (exactly
  when: `OpcodeScan.SledAgreement`; five NOPs: `OpcodeScan.SledMissed`);
- a shutdown no longer restores every page after a protect exactly if some page of the
  region did not start out with the protection that the region's first page has now
  (`MemoryGuard.ProtectRestorable`), so protecting one region twice loses its original
  protection unless the first request was for just that
  (`MemoryGuard.ProtectedTwiceRestores`, `MemoryGuard.ProtectedTwiceStays`);
- exactly the guard flag alone converts to no valid protection
  (`MemoryGuard.ConvertsUnlessGuardAlone`).

`dafny verify dfyconfig.toml` checks everything.

## Model

| member | source | states |
|---|---|---|
| `Crc32.TableIsSerial` | src/shared/hash.c:8-23 | the table-driven CRC equals the bit-by-bit CRC on every message and initial value |
| `Crc32.SerialBurstDetected` | src/shared/hash.c:8-23 | on bits: two messages of one length that differ only inside 32 consecutive bits have the same CRC iff they are equal |
| `Crc32.BurstDetected` | src/shared/hash.c:18-23 | on bytes: the same for any change inside four consecutive bytes, any length and any initial value |
| `Crc32.BurstLimit` | src/shared/hash.c:18-23 | the 32 bits are exact: for every initial value some two messages of 33 bits collide |
| `Crc32.ByteBurstLimit` | src/shared/hash.c:18-23 | and so are the four bytes: for every initial value two messages of five bytes collide |
| `Crc32.CrcConcat` | src/shared/hash.c:18-23 | the CRC of a prefix as the initial value gives the CRC of the concatenation |
| `Crc32.CrcAffine` | src/shared/hash.c:18-23 | for equal lengths the CRC of a^b^c is the exclusive-or of the three CRCs |
| `Crc32.CrcUnit.InitCrc` | src/shared/hash.c:8-16 | the nested loops fill the table with eight register steps of each index, once |
| `Crc32.CrcUnit.Crc32` | src/shared/hash.c:18-23 | the byte loop over the table computes the CRC that the results above are about, initialising the table when needed |
| `LaneHash.UnmixMix` | src/shared/hash.c:86 | the in-place mixing loop loses nothing: running it backwards recovers the eight words |
| `LaneHash.MixUnmix` | src/shared/hash.c:86 | and it reaches every eight words, so it is a bijection |
| `LaneHash.MixedWords` | src/shared/hash.c:86 | the words it leaves, the last computed from the already changed word 0 |
| `LaneHash.Md5TellsLanes` | src/shared/hash.c:77-81 | md5 digests are equal iff each of the four independent 33h+d lanes ends equal |
| `LaneHash.Sha256TellsLanes` | src/shared/hash.c:83-88 | sha256 digests are equal iff each of the eight lanes ends equal, through the mixing |
| `LaneHash.Md5DetectsLaneChange` | src/shared/hash.c:77-81 | messages that differ in exactly one position of some residue class modulo 4 have different digests, whatever the other lanes do |
| `LaneHash.Sha256DetectsLaneChange` | src/shared/hash.c:83-88 | the same modulo 8 |
| `LaneHash.Md5WindowDetected` | src/shared/hash.c:77-81 | any change inside four consecutive bytes changes the digest |
| `LaneHash.Sha256WindowDetected` | src/shared/hash.c:83-88 | any change inside eight consecutive bytes changes the digest |
| `LaneHash.WindowLimits` | src/shared/hash.c:77-88 | the widths are exact: two messages of five (md5) and of nine (sha256) bytes collide |
| `LaneHash.FeedLanes` | src/shared/hash.c:79-85 | the loop over h[i % m], in place, leaves in each word the fold of its own lane |
| `LaneHash.Md5` | src/shared/hash.c:77-81 | the code computes the digest the results above are about |
| `LaneHash.Sha256` | src/shared/hash.c:83-88 | the code, with its in-place mixing loop, computes the digest the results above are about |
| `Hash.WindowTold` | src/shared/hash.c:51-71 | for each computable algorithm, hashes of messages that differ only inside four consecutive bytes compare equal iff the messages are equal |
| `Hash.Compute` | src/shared/hash.c:51-61 | the status and record for every algorithm, including empty input and the algorithms that cannot be computed |
| `MemoryScanner.ReportedWithinWindow` | src/core/memory_monitor/memory_scanner.c:219-251 | a region with the reference's bytes is never reported, one that differs from it only inside four consecutive bytes always |
| `MemoryScanner.FoundIsFirst` | src/core/memory_monitor/memory_scanner.c:254-275 | the results are tampered regions in list order with none before the last left out |
| `MemoryScanner.FoundCount` | src/core/memory_monitor/memory_scanner.c:254-275 | a scan with room for max reports exactly min(max, n) of n tampered regions |
| `MemoryScanner.ScannedSame` | src/core/memory_monitor/memory_scanner.c:240-248 | scanning changes only the last-seen hash, never the good hash, place or size |
| `MemoryScanner.Monitor.AddRegion` | src/core/memory_monitor/memory_scanner.c:143-175 | null exactly for bad arguments or no memory; otherwise one new region in front, with the hash of its bytes |
| `MemoryScanner.Monitor.RemoveRegion` | src/core/memory_monitor/memory_scanner.c:178-197 | the link walk removes exactly that region and keeps the order of the rest; nothing for null or a region not in the list |
| `MemoryScanner.Monitor.ScanRegion` | src/core/memory_monitor/memory_scanner.c:219-251 | the verdict, and the seen hash kept exactly on a mismatch; false for null |
| `MemoryScanner.Monitor.ScanAll` | src/core/memory_monitor/memory_scanner.c:254-275 | the loop finds the positions, and leaves the list, that FoundCount and the passes below speak of |
| `MemoryRepair.RestoreWrites` | src/core/repair_system/memory_repair.c:130-154 | in any state: a restore succeeds iff there is a backup at the base address; a region its write does not touch keeps bytes, good hash and verdict; its own is reported iff the digests differ, and is clean with the backup's bytes if the sizes agree |
| `MemoryRepair.RestoreEffect` | src/core/repair_system/memory_repair.c:130-154 | so where no restore writes into another region and backups have their regions' sizes, it repairs its region and no other |
| `MemoryRepair.AutoFixWrites` | src/core/repair_system/memory_repair.c:197-210 | in any state: skipped iff not tampered with, successful iff tampered with and backed up, with the effect on each region as for a restore |
| `MemoryRepair.AutoFixEffect` | src/core/repair_system/memory_repair.c:197-210 | where no restore writes into another region and backups have their regions' sizes, exactly a tampered, backed-up region is repaired and no other is disturbed |
| `MemoryRepair.PassEffect` | src/core/repair_system/memory_repair.c:213-230 | one pass takes the first min(64, n) of n tampered regions, repairs exactly those with a backup, disturbs no other and returns their number |
| `MemoryRepair.PassesRepair` | src/core/repair_system/memory_repair.c:213-230 | with all n backed up, a pass repairs exactly min(64, n) and k passes leave max(0, n - 64k) |
| `MemoryRepair.StuckStay` | src/core/repair_system/memory_repair.c:213-230 | tampered regions without a backup stay so through any number of passes, and no region joins them |
| `MemoryRepair.PassesConverge` | src/core/repair_system/memory_repair.c:213-230 | some number of passes makes scan-all return nothing iff every tampered region has a backup, and then k passes do iff 64k >= n |
| `MemoryRepair.RepairedUnlessStarved` | src/core/repair_system/memory_repair.c:213-230 | a tampered region is ever repaired iff it has a backup and fewer than 64 tampered regions without one precede it |
| `MemoryRepair.ConflictNeverClean` | src/core/repair_system/memory_repair.c:213-230 | two small regions that share an address at which their backups disagree undo each other's repairs: no number of passes leads to a clean scan |
| `Repairer.Repairer.BackupMemory` | src/core/repair_system/memory_repair.c:58-104 | a new backup in front with the bytes, address and hash; null exactly for bad arguments or no memory |
| `Repairer.Repairer.FindBackupByAddress` | src/core/repair_system/memory_repair.c:107-119 | the walk returns the newest backup at the address, or null iff there is none |
| `Repairer.Repairer.FreeBackup` | src/core/repair_system/memory_repair.c:172-194 | exactly that backup leaves the list; nothing for null or a backup not in the list |
| `Repairer.Repairer.RestoreMemory` | src/core/repair_system/memory_repair.c:130-154 | the whole new state of memory, region, lists and both 32-bit counters is that of the restore specified above; null fails without being counted |
| `Repairer.Repairer.AttemptAutoFix` | src/core/repair_system/memory_repair.c:197-210 | the scan followed by the restore gives the state AutoFixEffect speaks of; null fails |
| `Repairer.Repairer.CheckAndFixAll` | src/core/repair_system/memory_repair.c:213-230 | the count and the state after the scan and the loop are those of the pass that PassEffect and PassesConverge speak of |
| `RepairRuns.StepKeeps` | src/core/repair_system/memory_repair.c:58-210 | every registration, removal, scan, backup, free, restore, fix or outside write keeps: good hashes are those of the references, the backup list is the captures not freed, newest first, and successes do not exceed attempts |
| `RepairRuns.ReportedInRuns` | src/core/memory_monitor/memory_scanner.c:143-251 | after any run a region with its bytes of registration, or of the backup it was last restored from, is not reported, and one that differs from them only inside four consecutive bytes is; the restored bytes are the backup's when that has the region's size |
| `RepairRuns.ReportedAfterRestore` | src/core/repair_system/memory_repair.c:144-149 | after any run and a restore from a backup of any size: the region is reported, unchanged, iff the digest of its bytes is not the backup's; never if the sizes agree |
| `RepairRuns.RestoredIsReported` | src/core/repair_system/memory_repair.c:144-149 | a run in which a region restored from a shorter backup is reported by md5 at once |
| `RepairRuns.RestoreWritesNewestLive` | src/core/repair_system/memory_repair.c:107-154 | after any run a restore succeeds iff some capture at the base address is not freed, and writes exactly the bytes of the newest such capture |
| `RepairRuns.CountersOrdered` | src/core/repair_system/memory_repair.c:136-151 | after any run no repair succeeded without an attempt, also by the 32-bit counters while the attempts fit them |
| `RepairRuns.DigestsMatch` | src/core/repair_system/memory_repair.c:84-94 | after any run every stored digest is that of the stored bytes, which are those of a capture not freed |
| `RepairRuns.RepairableAfterRun` | src/core/repair_system/memory_repair.c:84-89 | after any run disjoint regions with backups of their size are all the convergence results need |
| `Starvation.StarvationHappens` | src/core/repair_system/memory_repair.c:213-230 | a run from the start (65 registrations, one backup, all bytes changed) to a state in which 64 stuck regions precede a tampered, backed-up one that no number of passes repairs |
| `RepairRuns.PassIsARun` | src/core/repair_system/memory_repair.c:213-230 | a whole repair pass is such a run, so all of this holds across passes |
| `ThreadPool.TokensMatchTasks` | src/shared/thread_pool.c:37-52 | in every reachable state before the stop event: queue length = semaphore count + workers holding a token + submitters owing a signal; a worker with a token finds a task and no release exceeds qs; afterwards, even with lost releases, queue length <= that sum |
| `ThreadPool.FirstInFirstOut` | src/shared/thread_pool.c:44-102 | in every reachable state: accepted tasks = dispatched tasks followed by the queue, none twice; every dispatched task is in hand or finished; queue_size is the list's length and at most qs; a submit is turned away only at qs |
| `ThreadPool.StepKeeps` | src/shared/thread_pool.c:37-102 | each step of any worker, submitter, pause switch or shutdown keeps mutual exclusion, the bound, the token accounting, freshness of tasks and the order |
| `ThreadPool.Drains` | src/shared/thread_pool.c:76-87 | from a quiet state with an empty queue or a worker outside the gap, a shutdown that ends with all workers gone has run every accepted task exactly once |
| `ThreadPool.DrainsUnlessAllInGap` | src/shared/thread_pool.c:40-87 | in every reachable quiet state that is exact: all shutdowns drain iff the queue is empty or some worker is outside the gap |
| `ThreadPool.TaskCanBeLost` | src/shared/thread_pool.c:40-103 | a run from the start in which a submit succeeds, all workers leave, and its work never runs |
| `ThreadPool.ShutdownCanReturn` | src/shared/thread_pool.c:37-87 | from every reachable quiet state that is neither paused nor shutting down, some shutdown returns with all workers gone, and drained if the queue was empty or a worker outside the gap |
| `ThreadPool.PausedShutdownReturns` | src/shared/thread_pool.c:39-43 | for a shutdown of a pool paused before its last signal and not resumed, lost releases and submits in progress included: once all signals are released it can return iff every worker is in the gap or gone, or the semaphore's maximum is 0 |
| `ThreadPool.PausedShutdownHangs` | src/shared/thread_pool.c:39-43 | a run of three steps, with one waiting worker, after which the shutdown never returns without a resume |
| `ThreadPool.PausedWaitsSucceed` | src/shared/thread_pool.c:39-43 | if no release is lost, no wait fails any more once all signals of such a shutdown are released |
| `TaskQueue.TaskQueue.Append` | src/shared/thread_pool.c:99-102 | the bounded append through the walk to the last link: accepted iff there is room, then at the end |
| `TaskQueue.TaskQueue.Take` | src/shared/thread_pool.c:45-47 | the first task leaves and the rest stay in order, or null when empty |
| `OpcodeScan.HookScanRegion` | src/core/advanced/hook_detector.c:132-176 | returns, modulo 2^32, the number of offsets i < size - 5 that hold a jump or call not directly after a NOP or start a maximal run of at least five NOPs; the inner loop moves the outer index |
| `OpcodeScan.CheckNopSled` | src/core/advanced/tamper_detector.c:59-82 | true iff five NOPs stand in a row |
| `OpcodeScan.SledAgreement` | src/core/advanced/hook_detector.c:161-171 | the scan counts a sled iff the check sees one, except when the only five NOPs in a row are the last five bytes |
| `OpcodeScan.SledMissed` | src/core/advanced/hook_detector.c:140-173 | five NOPs: a sled for the check, nothing for the scan |
| `OpcodeScan.CheckUnexpectedJumps` | src/core/advanced/tamper_detector.c:85-120 | true iff at least 16 bytes and one of them E8, E9, EB or FF |
| `OpcodeScan.CheckInlineHooks` | src/core/advanced/hook_detector.c:179-198 | true iff E8 or E9 stands at least eight bytes from either end |
| `OpcodeScan.CheckInlineTampering` | src/core/advanced/tamper_detector.c:137-160 | the same, with EB |
| `Checkpoints.WindowIsNewest` | src/core/repair_system/state_roller.c:89-111 | for a limit of at least 2, after any n creates the history is the newest min(n, limit), newest first with their data (all n at the greatest limit, whose 32-bit count is never exceeded); for limits 0 and 1 it speaks of the code for n = 1 only, as the second create faults |
| `Checkpoints.FaultsExactly` | src/core/repair_system/state_roller.c:102-111 | a series of creates follows no null link iff the limit is at least 2 or there is at most one |
| `Checkpoints.RollbackWindow` | src/core/repair_system/state_roller.c:120-147 | a sequence can be rolled back to iff one of the newest min(n, limit) creates had it |
| `Checkpoints.StateRoller.Create` | src/core/repair_system/state_roller.c:60-117 | each outcome exactly, and on success the history WindowIsNewest speaks of |
| `Checkpoints.StateRoller.Trim` | src/core/repair_system/state_roller.c:94-111 | the nested loops cut the tail in place, end, and fault exactly with a limit of at most 1 and more than one node |
| `Checkpoints.StateRoller.RollbackToSequence` | src/core/repair_system/state_roller.c:120-147 | succeeds iff the sequence is in the history |
| `Checkpoints.StateRoller.RollbackToLastGood` | src/core/repair_system/state_roller.c:150-166 | succeeds iff there is a newest checkpoint and its sequence is not 0 |
| `Sessions.InvalidityIsPermanent` | src/core/auth_gateway/session_manager.c:160-222 | once judged invalid, a session is never judged valid again, whatever is done and whatever the clock says |
| `Sessions.ValidExactly` | src/core/auth_gateway/session_manager.c:160-182 | valid iff never banned, invalidated or checked too late and not past the expiry its last refresh or its creation gave |
| `Sessions.ValidityIsBounded` | src/core/auth_gateway/auth_client.c:184-201 | a valid verdict comes at most the greater of the two timeouts after the creation, even with overflow |
| `Sessions.BornValid` | src/core/auth_gateway/session_manager.c:79-81 | a session is valid when made iff its 64-bit expiry does not overflow |
| `Sessions.CleanupAgreesWithValidity` | src/core/auth_gateway/session_manager.c:225-245 | what a cleanup removes would be judged invalid then; what it keeps is judged valid iff still active or pending |
| `Sessions.KeptExactly` | src/core/auth_gateway/session_manager.c:231-240 | exactly the sessions with now > expires_at are removed |
| `Sessions.SessionManager.CleanupExpired` | src/core/auth_gateway/session_manager.c:225-245 | the loop over a pointer to a link leaves exactly the unexpired sessions, in order, and counts the others |
| `Sessions.SessionManager.IsValid` | src/core/auth_gateway/session_manager.c:160-182 | the verdict, and the state changed to expired exactly when time ran out |
| `Sessions.SessionManager.Find` | src/core/auth_gateway/session_manager.c:122-138 | the first session with the ID, or null iff there is none or the ID is null |
| `Sessions.SessionManager.Create` | src/core/auth_gateway/session_manager.c:54-98 | null exactly without a user or memory; otherwise an active session in front |
| `Sessions.SessionManager.Destroy` | src/core/auth_gateway/session_manager.c:101-119 | exactly that session leaves the list; nothing for null or a session not in the list |
| `Sessions.SessionManager.Close` | src/core/auth_gateway/session_manager.c:198-222 | banning or invalidating changes that session's state and nothing else; nothing for null |
| `Sessions.SessionManager.ValidateSession` | src/core/auth_gateway/auth_client.c:163-181 | each status exactly, judging the first session with the ID |
| `Sessions.SessionManager.RefreshSession` | src/core/auth_gateway/auth_client.c:184-201 | the expiry counted from the creation, whatever the session's state |
| `HashDb.FindIsLookup` | src/core/memory_monitor/hash_database.c:45-132 | after any adds and removes with names of at most 63 characters, names are distinct and finding any name is looking it up in the abstract map |
| `HashDb.VerifiedWithinWindow` | src/core/memory_monitor/hash_database.c:135-154 | after any such run, bytes that differ from those stored under a name only inside four consecutive bytes verify iff they are the same, at the same non-null address |
| `HashDb.FoundAfterAdd` | src/core/memory_monitor/hash_database.c:57-87 | a name is found after its add iff it has at most 63 characters |
| `HashDb.LongNamesRepeat` | src/core/memory_monitor/hash_database.c:80-87 | two adds of an overlong name leave two entries of one name |
| `HashDb.HashDatabase.Find` | src/core/memory_monitor/hash_database.c:116-132 | the first entry with the name, or null iff there is none or the name is null |
| `HashDb.HashDatabase.Add` | src/core/memory_monitor/hash_database.c:45-92 | each status, and the updated or new entry in the list |
| `HashDb.HashDatabase.Remove` | src/core/memory_monitor/hash_database.c:95-113 | the first entry with the name leaves the list |
| `HashDb.HashDatabase.Verify` | src/core/memory_monitor/hash_database.c:135-154 | the verdict VerifiedWithinWindow speaks of |
| `ChecksumDb.RunRefines` | src/core/integrity_check/checksum_db.c:56-91 | after any adds of proper paths the used slots are a prefix with distinct paths that is the map |
| `ChecksumDb.ExhaustedExactly` | src/core/integrity_check/checksum_db.c:76-91 | after any such run an add reports exhaustion iff 1024 other paths are stored |
| `ChecksumDb.EmptyPathIsLost` | src/core/integrity_check/checksum_db.c:66-74 | an empty path is accepted iff a slot is free and leaves the map as it was |
| `ChecksumDb.FoundAfterAdd` | src/core/integrity_check/checksum_db.c:65-87 | a path that is not empty and was added is found iff it has at most 259 characters |
| `ChecksumDb.LongPathsRepeat` | src/core/integrity_check/checksum_db.c:77-86 | two adds of an overlong path take two slots |
| `ChecksumDb.Add` | src/core/integrity_check/checksum_db.c:56-91 | the two loops over the table give the status and table RunRefines speaks of |
| `EventLog.EveryEventHasOneFate` | src/kernel/process_watcher.c:18-154 | over any run: what was delivered is events of the notifications, in order and none twice; the log is the first at most 1024 accepted since it was last emptied, and accepted are exactly the notifications since then that were not ignored, in order; every notification is in exactly one of ignored, dropped, discarded, delivered, logged |
| `EventLog.LostOnArrival` | src/kernel/process_watcher.c:18-72 | at any point of any run: a notification is ignored iff it came while switched off or gives no event, and dropped iff it came to a full log |
| `EventLog.PlainSteps` | src/kernel/process_watcher.c:35-39 | the history's log moves as the code's log does |
| `EventLog.Watcher.Notify` | src/kernel/process_watcher.c:18-72 | nothing when switched off or without image information; otherwise the event with its narrowed name, appended while there is room |
| `EventLog.Watcher.GetEvents` | src/kernel/process_watcher.c:140-154 | the buffer's first min(oc, count) entries are the log's, the rest untouched, and the log is empty |
| `EventLog.Watcher.Monitor` | src/kernel/process_watcher.c:104-113 | a nonzero process number switches on, zero off, a short input changes nothing |
| `EventLog.Watcher.Stop` | src/kernel/process_watcher.c:90-122 | both switch off; only a shutdown empties the log |
| `MemoryGuard.ShutdownRestores` | src/kernel/memory_guard.c:45-134 | for mapped, uniform regions apart from those protected, any protects, unprotects and outside changes to protected pages followed by a shutdown leave every page with its first protection |
| `MemoryGuard.ShutdownLeavesWorking` | src/kernel/memory_guard.c:49-57 | without any assumption: each page gets what the last registered of the covering entries whose call works recorded, or keeps what it has |
| `MemoryGuard.ShutdownLeaves` | src/kernel/memory_guard.c:49-57 | in particular, when all calls work, what the last covering entry recorded |
| `MemoryGuard.ProtectRestorable` | src/kernel/memory_guard.c:75-84 | while a shutdown would restore every page, protecting any mapped region, overlapping or protected already, keeps it so iff all its pages started out with the protection its first page has now |
| `MemoryGuard.FailedProtectRestorable` | src/kernel/memory_guard.c:75-80 | a protect that runs out of memory keeps it so iff the pages of the region that no entry covers started out with what it leaves them: the first page's protection, or the one asked for if the rollback fails |
| `MemoryGuard.UnprotectRestorable` | src/kernel/memory_guard.c:99-109 | an unprotect keeps it so iff for each page its entry was last to cover, the next entry covering it recorded the first protection, or there is none and the call works or was not needed |
| `MemoryGuard.ProtectedTwiceRestores` | src/kernel/memory_guard.c:66-91 | a second protect of the same pages keeps it so iff the first asked for the protection they had |
| `MemoryGuard.ScanIsQuiet` | src/kernel/memory_guard.c:117-134 | in such a run without outside changes a scan writes no entry |
| `MemoryGuard.NoneReported` | src/kernel/memory_guard.c:123-128 | a scan writes nothing iff there is no room or every region whose query is answered has the converted protection on its first page |
| `MemoryGuard.ProtectedTwiceStays` | src/kernel/memory_guard.c:66-91 | protecting a region twice and shutting down leaves it with its first requested protection |
| `MemoryGuard.ConvertsUnlessGuardAlone` | src/kernel/memory_guard.c:19-31 | converting flags gives a valid page protection iff they are not the guard flag alone |
| `MemoryGuard.Guard.ProtectRegion` | src/kernel/memory_guard.c:66-91 | each status by its cause, the pages and the entry at the end, also when allocation fails after the change and when the rollback fails |
| `MemoryGuard.Guard.UnprotectRegion` | src/kernel/memory_guard.c:93-115 | the first entry at the address is removed, and its pages restored if the call works |
| `MemoryGuard.Guard.Shutdown` | src/kernel/memory_guard.c:45-64 | all entries whose call works are restored in the order of registration |
| `MemoryGuard.Guard.Scan` | src/kernel/memory_guard.c:117-134 | the first oc regions whose query is answered with another protection for the first page |

## Left out

- ThreadPool.Next: models one shutdown, which waits for the workers; shutting down without waiting frees the pool under running workers, which has no defined behaviour. The unlocked statistics, priorities, thread creation and its failure paths are not modelled.
- ThreadPool.WorkerEnabled: the event, once set, may be seen by any number of workers, and a wait for it may also answer no. The event code is not part of the repository; were the event reset by the first wait that sees it, a waiting shutdown of two or more workers could never return, and the results on what holds when all workers have left would say nothing of it. A timed-out wait is possible only when the count is 0. The semaphore and event code at the end of the file is cut off in the repository.
- MemoryScanner.Monitor.RemoveRegion: the release of the record's memory is not modelled, so neither is using or freeing a record that was freed before. The same goes for `Repairer.Repairer.FreeBackup` and `Sessions.SessionManager.Destroy`.
- MemoryScanner.Monitor.ScanRegion: a region that is not null is in the list; so for `Repairer.Repairer.RestoreMemory`, `Repairer.Repairer.AttemptAutoFix` and `Sessions.SessionManager.Close`.
- MemoryScanner.Monitor.ScanAll: the result records are the found regions only; their constant fields and formatted descriptions are left out.
- MemoryRepair.PassEffect: like all results on passes, for states in which no restore writes into another region and backups have their regions' sizes (disjoint regions will do); `MemoryRepair.RestoreWrites` does without, and `MemoryRepair.ConflictNeverClean` shows what overlapping regions do.
- Crc32.CrcUnit.Crc32: works on a sequence of bytes read from memory, not on the memory itself; so do the other hashes.
- EventLog.Watcher.Notify: one call is one step; the unlocked read of the switch before the spin lock is not interleaved with other calls. Timestamps are left out.
- MemoryGuard.Guard.ProtectRegion: which process is current, reference counts and pool tags are left out, and initialising a second time is not modelled.
- MemoryGuard.ShutdownRestores: needs regions apart from the protected ones, with other base addresses and one protection throughout at the start; `MemoryGuard.ShutdownLeaves` and `MemoryGuard.ProtectRestorable` say what happens without that.
- Sessions.SessionManager.Create: session and hardware IDs are random, so the ID is a parameter; rights and the IP address never change and are left out.
- ChecksumDb.Add: the table is initialised; loading it from a file is cut off in the repository, and verifying needs the file system.
- Mutexes and spin locks of the registries: each public call is taken as one step.
- Logging, timestamps of backups, checkpoints and results, and the initialisation flags of the repair modules.
- Lookup of regions by name and restoring by name: a plain list search.
- Saving and loading the hash database: loading does not restore the hashes.
- Sockets, client, launcher, server, driver dispatch and the state packets: input and output.
- Token generation, callback lists, file verification, PE signatures, debugger checks, page auditing, shadow page tables and heap canaries: platform calls, placeholders, or code that is cut off.
- Configuration and logger: configuration values are parameters.
