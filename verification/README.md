# Verified models of the driver examples

Dafny models of the drivers in this collection that hold real state, with proofs about whole
runs, interleavings and heap shapes. `dafny verify dfyconfig.toml` checks everything.

| files | what they model |
|---|---|
| `StorageSpec.dfy`, `StorageHandlers.dfy` | the sector-locked store of `003_char_block_storage_device`: the atomic specification, and each handler proved against it |
| `StorageMirror.dfy`, `StorageHistory.dfy` | its mirror and backup module, and what a backup contains after any sequential history |
| `StorageSystem.dfy`, `StorageRefinement.dfy`, `StorageRuns.dfy`, `StorageLaws.dfy`, `StorageSafety.dfy`, `TornMirror.dfy` | the same store as an interleaved system of threads, its refinement of the atomic specification, what the replies of calls say about each other, safety, progress, and why the mirror theorem needs exactly the lock |
| `SeekBuffer.dfy`, `SeekBufferLaws.dfy`, `CharDevices.dfy` | the seekable buffer of `010_multi_char_driver` and the truncating one of `011_chrdev_skeleton` |
| `DeviceInit.dfy` | loading and unloading `010_multi_char_driver` for any number of devices |
| `IntrusiveList.dfy` | the circular list of `024_linked_list` on the heap |
| `MultiReader.dfy` | the delivery protocol of `012_multi_reader_wait` |
| `KeypadQueue.dfy` | the ring queue and keypad helper of `002_char_keypad_driver` |
| `PollDevice.dfy` | the event device of `014_poll_select` |
| `Kernel.dfy` | bytes, error numbers and partial overwrites shared by the models |

## How the models are set up

Handlers that update globals or struct fields are methods of a class with those fields, proved
against a function on values; laws and whole-run theorems are then proved about the functions.
What the environment decides is a parameter: whether a user-space copy faults (and then what a
faulting copy *into* a driver buffer left behind, which may be anything inside the requested
range), whether a signal ends an interruptible wait, whether an allocation or registration fails,
and how many bytes `kernel_write` takes. File positions and lengths are natural numbers whose sum
stays below the largest `loff_t`, as the VFS guarantees; where the code's machine arithmetic
matters (the seek target, the last sector to check) its wrap-around is written out.

In the interleaved storage system a thread is a program counter with local variables. The lock
check of a write looks at one sector per step, the lock vector is read one entry per step, and
every copy moves one byte per step, in any order, until it ends or faults; a fault changes what it
changes of the requested range in one step, and a `kernel_write` takes its bytes in one step. A schedule lists which thread acts next and how
the environment resolves its step; `Run` gives the state it leads to, if every turn is enabled.

Three places where the code does something a reader might not expect, and the model follows it:

- `storage_write` of no bytes is still checked against the sector it points into, except at the
  first byte of a sector, and at offset 0 the last sector computes to -1. `Refused` says this
  exactly, and `SectorCheckIsByteRule` covers it.
- `mirror_sector` gives up silently on a signal and the ioctl still returns 0.
- `my_read` of 014 ignores that its wait was interrupted and goes on.

## False expectations, with their exact conditions

- A mirror of a sector that is *not* locked need not be a snapshot. `SnapshotIffLocked` gives the
  exact condition, which a caller can see in the lock vector: where another thread is idle and the
  mutexes are free, a mirror call is certain to copy a content that the sector had between two calls
  if and only if the sector is locked (and not unlocked meanwhile). `UnlockedMirrorCanTear` builds
  the torn run from every unlocked state; `MirrorOfLockedSectorIsExact` and, for a sector that
  merely happens not to change, `MirrorOfStableSectorIsExact` give the other direction.
- In 010, old bytes may stay behind the data, so that a later hole does not read as zeros: after
  `data_store` (`StaleHole`: store one byte, store nothing, write at 1), and also after nothing but a
  write that faults (`FaultedHole`: a write of one byte at 0 faults and leaves 7, the next one goes
  to 1). `HolesStayZero` and `TailStaysZero` say exactly in which runs this does not happen: no
  `data_store` drops a non-zero byte, and no faulting write leaves one at or past the length.
  `RunIsSparseFile` covers all those runs.
- In 012, `data_ready == 0` does not imply `readers_count == 0` once a read's wait and the rest of
  it are separate steps. `CountWhenNotReady`: it does in all reachable states if and only if there is
  at most one reader or the total is 1; `CountMayLinger` gives the run for all other configurations.
  For uninterleaved reads it always does (`AtomicDeliveryBound`).
- In 014, a reader whose position is not 0 when a message is written does not get the whole message;
  `ReaderGetsMessage` says exactly what it gets.
- 010 and 011 behave alike exactly as long as no write ends before the current size
  (`OneSimulation`, `ShrinkingIsVisible`).

## Model

| member | source | states |
|---|---|---|
| StorageSpec.SectorCheckIsByteRule | 003_char_block_storage_device/storage_kernel.c:80-100 | checking the locks of sectors `start/512 .. (end-1)/512` one by one, with the code's unsigned and `int` arithmetic, refuses exactly what the byte-level rule refuses: for a non-empty write, that some byte of its range lies in a locked sector |
| StorageSpec.LastSectorValue | 003_char_block_storage_device/storage_kernel.c:82-85 | the 64-bit `end - 1` divided and stored in an `int` is the sector of the last byte, or -1 when the range is empty at offset 0, and never indexes past the lock array |
| StorageSpec.WriteMeaning | 003_char_block_storage_device/storage_kernel.c:74-111 | an uninterrupted write is refused with -EPERM exactly by the byte-level rule; otherwise it takes min(length, 4096 - offset) bytes, stores them, moves the offset by as many (none of this on a fault) and touches no byte outside its range |
| StorageSpec.LockedSectorSurvives | 003_char_block_storage_device/storage_kernel.c:69-215 | no single call, faulting or not, changes a byte of a locked sector, and only an accepted unlock of that sector clears its lock |
| StorageHandlers.StorageDevice.constructor | 003_char_block_storage_device/storage_kernel.c:255-276 | loading leaves zeroed storage, no locks, and the built-in keys when none were given |
| StorageHandlers.StorageDevice.StorageRead | 003_char_block_storage_device/storage_kernel.c:44-67 | the read returns min(length, 4096 - offset) bytes, which are the storage's at the offset, and moves the offset past them; end of file, a signal and a fault return 0, -ERESTARTSYS and -EFAULT and move nothing; the mutex is free again on every path |
| StorageHandlers.StorageDevice.StorageWrite | 003_char_block_storage_device/storage_kernel.c:69-112 | -EPERM exactly when the byte-level rule refuses the clamped write, with nothing changed; otherwise the bytes that fit are stored, returned and added to the offset and no other byte changes; -ENOSPC, -ERESTARTSYS and -EFAULT as in the code, none of which moves the offset |
| StorageHandlers.StorageDevice.LockSector | 003_char_block_storage_device/storage_kernel.c:132-143 | returns 0 for every valid sector and then exactly its lock bit is set in addition; -EINVAL and -EFAULT change nothing; the storage stays |
| StorageHandlers.StorageDevice.UnlockSector | 003_char_block_storage_device/storage_kernel.c:145-182 | clears exactly the requested bit and returns 0 for every key among the configured ones, and otherwise changes nothing and returns -EFAULT, -EINVAL, -EPERM or -ERESTARTSYS, in this order |
| StorageHandlers.StorageDevice.GetLockInfo | 003_char_block_storage_device/storage_kernel.c:184-197 | the loop collects the whole lock vector |
| StorageHandlers.StorageDevice.EraseSector | 003_char_block_storage_device/storage_kernel.c:199-215 | zeroes exactly the 512 bytes of an unlocked sector and returns 0, or returns -EPERM for a locked one, -EINVAL or -EFAULT and changes nothing |
| StorageHandlers.StorageDevice.MirrorIoctl | 003_char_block_storage_device/storage_kernel.c:217-229 | mirrors the sector without taking storage_mutex and returns 0 even when the mirror gave up on a signal |
| StorageMirror.MirrorModule.MirrorSector | 003_char_block_storage_device/storage_mirror_kernel.c:20-34 | copies the sector into its place in the mirror and touches nothing else, or does nothing on a bad sector or a signal |
| StorageMirror.MirroredSectors | 003_char_block_storage_device/storage_mirror_kernel.c:28-30 | after a mirror call its sector equals the store's and the other seven are as before |
| StorageMirror.MirrorModule.BackupToFile | 003_char_block_storage_device/storage_mirror_kernel.c:38-79 | whatever kernel_write returns, the loop ends with `written == pos` and the file equal to that prefix of the mirror; 0 is returned exactly when the file is the whole mirror, and otherwise the error of the last kernel_write, or -EIO when it wrote nothing |
| StorageHistory.MirrorHistory | 003_char_block_storage_device/storage_mirror_kernel.c:20-34 | after every sequential history each mirror sector is what the store held there at that sector's last completed mirror, or zeros |
| StorageHistory.Play | 003_char_block_storage_device/storage_mirror_kernel.c:38-84 | any history played on the two modules: every backup that returns 0 left a file that is, sector by sector, the store at that sector's last completed mirror |
| StorageRefinement.LocalStepSim | 003_char_block_storage_device/storage_kernel.c:44-243 | every small step of every handler keeps the simulation relation to the atomic specification and leaves alone what a mutex held by another thread protects |
| StorageRefinement.WriteSim | 003_char_block_storage_device/storage_kernel.c:102-111 | a byte-by-byte copy that completes, or faults anywhere, amounts to one atomic write with an outcome the specification allows |
| StorageRefinement.CheckSim | 003_char_block_storage_device/storage_kernel.c:90-100 | the sector-by-sector check under the mutex decides by the byte-level rule |
| StorageRuns.RunKeepsInv | 003_char_block_storage_device/storage_kernel.c:44-215 | from any invariant state, the completed critical sections of any schedule replay through the specification with the replies they gave, and the invariant holds again |
| StorageRuns.RunRefinesSpec | 003_char_block_storage_device/storage_kernel.c:44-215 | refinement: after every interleaving from load, running the critical sections one at a time gives the same return values, read bytes and lock vectors, and the same store whenever the mutex is free |
| StorageRuns.CommitOrderIsAcquireOrder | 003_char_block_storage_device/storage_kernel.c:55-66 | critical sections complete in the order in which their threads acquired storage_mutex, at most the last one still being open |
| StorageRuns.EveryCallIsDisciplined | 003_char_block_storage_device/storage_kernel.c:55-66 | at every moment of every run a call that acquired a mutex has released it at most once and holds it exactly in between, no thread holds both mutexes, idle threads hold none; a finished call is the one its thread invoked, and its reply is that of the critical section or dump it completed, or exactly what its arguments and the step that ended it (fault, signal, open error, early exit) say |
| StorageLaws.RepliesAreExplained | 003_char_block_storage_device/storage_kernel.c:44-215 | in every interleaving the history of completed calls determines every reply: a read returns at each position the byte put there last (or zero) and moves the offset past what it read, a write or erase is refused exactly when the last lock or unlock of a sector it hits was a lock, lock-info lists exactly those sectors, and each error code arises exactly when it should; when storage_mutex is free the store is what that history says |
| StorageLaws.ReplayIsExplained | 003_char_block_storage_device/storage_kernel.c:44-215 | the same of the atomic specification run over any log |
| StorageLaws.LockTakesEffect | 003_char_block_storage_device/storage_kernel.c:132-143 | once a lock call has completed with 0, in every interleaving the bit is set whenever storage_mutex is free, and until an unlock of the sector completes, every write touching it and every erase of it completes with -EPERM and every lock-info shows it |
| StorageLaws.WriteIsReadBack | 003_char_block_storage_device/storage_kernel.c:44-112 | what an accepted write stored, a later fault-free read of that range returns in every interleaving, if no call completed in between put anything there |
| StorageSafety.LockedMeansFrozen | 003_char_block_storage_device/storage_kernel.c:80-110 | in every interleaved run, from a state where a sector is locked until an unlock of it takes its step, the sector stays locked and none of its bytes changes, whatever writers and erasers were waiting or fault |
| StorageSafety.OnlyUnlockClears | 003_char_block_storage_device/storage_kernel.c:170-177 | the only step that clears a lock bit belongs to an unlock of that sector with an accepted key |
| StorageSafety.WriterStaysOutOfLockedSectors | 003_char_block_storage_device/storage_kernel.c:90-107 | a byte that a thread is in the middle of writing or erasing lies in no locked sector |
| StorageSafety.CopyStaysExact | 003_char_block_storage_device/storage_kernel.c:225-228 | as long as no byte of a sector changes, what a mirroring thread has copied of it keeps agreeing with the store under every interleaving with other threads, mirrors and backups among them |
| StorageSafety.LockedIsStable | 003_char_block_storage_device/storage_kernel.c:90-107 | while a sector is locked and not unlocked, no turn of any schedule changes a byte of it |
| StorageSafety.MirrorOfStableSectorIsExact | 003_char_block_storage_device/storage_mirror_kernel.c:28-30 | a mirror call during which its sector does not change ends with an exact copy, locked or not |
| StorageSafety.MirrorOfLockedSectorIsExact | 003_char_block_storage_device/storage_kernel.c:217-229 | a mirror call for a sector that stays locked ends with the mirror's sector equal to the store's, the same as when the call was entered, although the copy does not take storage_mutex |
| StorageSafety.BackupIsSnapshot | 003_char_block_storage_device/storage_mirror_kernel.c:52-78 | in every interleaving a backup's file is a prefix of the mirror at the instant before it releases mirror_mutex, and the code it is going to return is 0 exactly when the file is all of it |
| StorageSafety.FinishedBackupIsSnapshot | 003_char_block_storage_device/storage_mirror_kernel.c:38-79 | a backup that has returned is the one its thread invoked; if it dumped, its code is 0 exactly when its file is the whole mirror as of the one instant it released mirror_mutex, and otherwise the file is a proper prefix of that and the code is the error of kernel_write, or -EIO when that wrote nothing; if it dumped nothing its code is an error |
| StorageSafety.RunsAreBounded | 003_char_block_storage_device/storage_kernel.c:44-243 | a run without new calls has a length bounded by the state it starts in, short writes of a backup included |
| StorageSafety.NeverStuck | 003_char_block_storage_device/storage_kernel.c:55-66 | while any call is unfinished some thread can step: no deadlock |
| StorageSafety.AllCallsFinish | 003_char_block_storage_device/storage_kernel.c:44-243 | from every reachable state all unfinished calls can be brought to their end |
| TornMirror.UnlockedMirrorCanTear | 003_char_block_storage_device/storage_kernel.c:225-228 | from every state in which a mirror call is entered for an unlocked sector, the mutexes are free and another thread is idle, a continuation with one write ends in a mirror that is the sector neither before nor after that write |
| TornMirror.SnapshotIffLocked | 003_char_block_storage_device/storage_kernel.c:217-229 | in every such reachable state: all continuations without an unlock of the sector mirror a content that the sector had between two critical sections if and only if the sector is locked |
| SeekBuffer.SeekIsExact | 010_multi_char_driver/driver.c:120-136 | with 64-bit wrap-around, a seek with a valid whence is accepted exactly when the mathematical target is in 0..capacity, and otherwise leaves the position alone |
| SeekBuffer.RunsStayInBounds | 010_multi_char_driver/driver.c:53-137 | in every run, with faults, data_store and reset, the length and every file position stay within the buffer |
| SeekBuffer.WriteMeaning | 010_multi_char_driver/driver.c:85-102 | a write takes the bytes that fit, moves position and length accordingly and touches no other byte; -ENOSPC at the capacity and -EFAULT move nothing |
| SeekBuffer.TruncWriteMeaning | 011_chrdev_skeleton/driver.c:56-73 | the write of 011 does the same, faults included, except that its size becomes the end of the write |
| SeekBuffer.ReadIsSparse | 010_multi_char_driver/driver.c:53-67 | a read returns what the abstract file holds there |
| SeekBuffer.WriteIsSparse | 010_multi_char_driver/driver.c:85-102 | a write makes the length max(len, pos+n), fills a gap with zeros and keeps the bytes behind the data zero |
| SeekBuffer.RunIsSparseFile | 010_multi_char_driver/driver.c:42-221 | from every state with zeros behind the data, a run of any operations by any number of open files that leaves no trace behind the data gives the replies and the content of an abstract sparse file and keeps the bytes behind the data zero |
| SeekBuffer.PlainLeavesNoTrace | 010_multi_char_driver/driver.c:42-137 | fault-free reads, writes, seeks and resets leave no trace, from any state |
| SeekBuffer.LoadedIsSparseFile | 010_multi_char_driver/driver.c:256-259 | so the device is an initially empty sparse file from load on |
| SeekBuffer.ResetIsSparseFile | 010_multi_char_driver/driver.c:205-221 | and it is one from any reset on, whatever data_store and faults happened before, with the open files at the positions they had |
| SeekBuffer.StoreKeepsZeros | 010_multi_char_driver/driver.c:178-182 | data_store keeps the bytes behind the data zero, up to any bound, exactly when it drops no non-zero byte below the bound |
| SeekBuffer.StepKeepsZeros | 010_multi_char_driver/driver.c:42-221 | one call keeps them zero exactly when it is not a data_store that drops a non-zero byte, nor a faulting write that leaves one between the length and the bound |
| SeekBuffer.TailStaysZero | 010_multi_char_driver/driver.c:42-221 | the bytes behind the data stay zero throughout a run iff no data_store in it drops a non-zero byte and no faulting write leaves one behind the data |
| SeekBuffer.HoleReadsBuffer | 010_multi_char_driver/driver.c:93-100 | a hole made by a write past the end reads as the bytes that the buffer had there |
| SeekBuffer.HolesReadZeroIff | 010_multi_char_driver/driver.c:93-100 | every hole that a seek and a write can make reads as zeros iff the bytes behind the data are zero, except the last of the buffer, which no hole reaches |
| SeekBuffer.HolesStayZero | 010_multi_char_driver/driver.c:42-221 | holes read as zeros at every moment of a run iff no data_store in it drops a non-zero byte and no faulting write leaves one behind the data, the last byte of the buffer excepted |
| SeekBuffer.FaultedHole | 010_multi_char_driver/driver.c:93-96 | a single faulting write, which returns -EFAULT and leaves length and position at 0, is enough for the next write to make a hole that reads as junk |
| SeekBuffer.StaleHole | 010_multi_char_driver/driver.c:178-182 | after two calls of data_store a hole reads as an old byte |
| SeekBufferLaws.ChunkedWriteIsOneWrite | 010_multi_char_driver/driver.c:74-107 | writing data in any split leaves the buffer, length, cursor and accepted count of one write, also when the capacity is hit |
| SeekBufferLaws.ReadsAreContiguous | 010_multi_char_driver/driver.c:42-72 | reads of any sizes deliver the data from where they started to where they got to, without gap or overlap |
| SeekBufferLaws.ReadToEndYieldsAll | 010_multi_char_driver/driver.c:42-72 | reading from 0 in any positive sizes until a read returns 0 yields exactly the data, and 0 is returned only then |
| SeekBufferLaws.WriteThenReadBack | 010_multi_char_driver/driver.c:42-107 | what was written in any split reads back in any other split |
| SeekBufferLaws.SizesOfBoth | 011_chrdev_skeleton/driver.c:56-73 | in every run both drivers hold the same bytes; the size of 011 is the end of its last successful write, that of 010 the largest end |
| SeekBufferLaws.OneSimulation | 011_chrdev_skeleton/driver.c:38-73 | the drivers are in the same state after every prefix of a run iff every successful write ends at or past the current size of 011 |
| SeekBufferLaws.SameResults | 011_chrdev_skeleton/driver.c:38-73 | in such a run every call gets the same result from both |
| SeekBufferLaws.ShrinkingIsVisible | 011_chrdev_skeleton/driver.c:70-72 | once the sizes differ, a one-byte read at the end of 011 succeeds on 010 and returns 0 on 011 |
| CharDevices.OpenFile.Read | 010_multi_char_driver/driver.c:42-72 | the read of 010 against its function, for the position its caller passes |
| CharDevices.OpenFile.Write | 010_multi_char_driver/driver.c:74-107 | the write of 010 against its function, including a faulting copy |
| CharDevices.Device.WriteLocked | 010_multi_char_driver/driver.c:85-102 | what a write does under the lock: clamping, a copy that may fault, cursor and length |
| CharDevices.Play | 010_multi_char_driver/driver.c:42-221 | any run of any number of open files on a freshly loaded device gives the replies of the model, and those of a sparse file when it leaves no trace behind the data, as runs of fault-free reads, writes, seeks and resets do |
| CharDevices.OpenFile.Llseek | 010_multi_char_driver/driver.c:109-137 | the seek of 010 moves f_pos only, and only as the function says |
| CharDevices.Device.DataStore | 010_multi_char_driver/driver.c:167-186 | replaces the data and cuts it to the capacity; the bytes behind it stay |
| CharDevices.Device.ResetStore | 010_multi_char_driver/driver.c:205-221 | puts the device back into its state after load |
| CharDevices.TruncDevice.Read | 011_chrdev_skeleton/driver.c:38-54 | the read of 011 is that of 010 |
| CharDevices.TruncDevice.Write | 011_chrdev_skeleton/driver.c:56-73 | the write of 011 sets the size to its own end |
| DeviceInit.Driver.Init | 010_multi_char_driver/driver.c:229-319 | for any number of devices and any pattern of failures, the load returns 0 and has acquired everything, or returns the error of the first acquisition that fails (-ENOMEM when that is the memory) and has released, in reverse, exactly what it had acquired |
| DeviceInit.Driver.InitDevice | 010_multi_char_driver/driver.c:252-298 | one pass of the loop with its goto labels: all five resources, or the acquired ones undone in reverse |
| DeviceInit.Driver.RollBack | 010_multi_char_driver/driver.c:303-318 | the rollback loop undoes the acquisition of all complete devices and of the shared resources in reverse order |
| DeviceInit.Driver.InitShared | 010_multi_char_driver/driver.c:233-250 | the number range, the class and the array, or the error of the first that fails (-ENOMEM for the array) after the earlier ones were released in reverse |
| DeviceInit.Driver.InitAttributes | 010_multi_char_driver/driver.c:275-292 | the three attributes of a device, or the error of the first that fails after the earlier ones were removed in reverse |
| DeviceInit.Driver.InitDevices | 010_multi_char_driver/driver.c:252-318 | the loop over the devices, continuing from the shared resources |
| DeviceInit.Driver.Exit | 010_multi_char_driver/driver.c:321-338 | an unload releases, device by device, the attributes, the device and the cdev, and then the array, the class and the number range |
| DeviceInit.LoadFailurePoint | 010_multi_char_driver/driver.c:252-298 | the first failing acquisition of the whole load is the failing stage of the first device that does not come up |
| DeviceInit.AcquireOrderIs | 010_multi_char_driver/driver.c:233-292 | the order of acquisition, spelled out position by position |
| DeviceInit.RollbackIsMirrorImage | 010_multi_char_driver/driver.c:303-318 | the trace of a failed load is its acquisitions followed by their mirror image |
| DeviceInit.RollbackIsClean | 010_multi_char_driver/driver.c:303-318 | from every point of failure the rollback respects every dependency, releases nothing twice and leaves nothing held |
| DeviceInit.LoadThenUnloadIsClean | 010_multi_char_driver/driver.c:321-338 | load and unload release every resource exactly once, attributes before device, device before class, cdev before its memory and the number range |
| DeviceInit.LoadAndUnload | 010_multi_char_driver/driver.c:229-341 | a whole life of the module under any failures ends with nothing held and makes no illegal step; when acquisition k is the first to fail the load returns its very error (-12 for the memory) and the trace is the acquisitions before it and their mirror image |
| IntrusiveList.ListAddTail | 024_linked_list/list.c:24 | the four pointer updates extend the ring by the new node at its end |
| IntrusiveList.ListDel | 024_linked_list/list.c:58 | the pointer updates leave the ring without the node, and the node's links poisoned |
| IntrusiveList.List.AddNode | 024_linked_list/list.c:14-26 | appends the value, or does nothing when the allocation fails |
| IntrusiveList.List.Traverse | 024_linked_list/list.c:28-38 | prints the contents in order, and their number |
| IntrusiveList.List.TraverseReverse | 024_linked_list/list.c:40-49 | prints the contents in reverse |
| IntrusiveList.List.RemoveNode | 024_linked_list/list.c:51-63 | deleting while iterating leaves a well-formed ring of the other nodes in order, frees exactly the matching nodes, once each and in order, and never touches a freed node |
| IntrusiveList.List.CleanupList | 024_linked_list/list.c:65-74 | empties the ring and frees every remaining node once |
| IntrusiveList.KeepingData | 024_linked_list/list.c:54-62 | the values of the kept nodes are the old values without the removed one, in order |
| IntrusiveList.KeepingAndMatching | 024_linked_list/list.c:54-62 | kept and freed nodes partition the list |
| IntrusiveList.RunAndCleanUp | 024_linked_list/list.c:14-98 | any run of additions and removals followed by the cleanup holds what a plain sequence would, and frees every allocated node exactly once |
| MultiReader.Driver.MyRead | 012_multi_reader_wait/driver.c:33-60 | an uninterleaved read delivers exactly the bytes before the first NUL of the buffer, returns their number and counts, the last one of the round clearing the flag; or it faults, times out or is interrupted without effect |
| MultiReader.Driver.MyWrite | 012_multi_reader_wait/driver.c:62-78 | a write stores at most 255 bytes and a NUL, sets the flag and restarts the count, or on a fault changes only the requested range |
| MultiReader.WriteMeaning | 012_multi_reader_wait/driver.c:64-70 | a write puts up to 255 bytes and a NUL into the buffer, or when it faults anything into the requested range, and touches no byte behind |
| MultiReader.WriteStoresMessage | 012_multi_reader_wait/driver.c:64-70 | after a write the buffer's string is the written data up to 255 bytes or the first NUL |
| MultiReader.DeliveryBound | 012_multi_reader_wait/driver.c:33-78 | in every reachable state of R reader threads the count is below the total and at most total + R - 1 reads succeeded since the last write |
| MultiReader.BoundIsAttained | 012_multi_reader_wait/driver.c:33-78 | for every total and R a run reaches that bound |
| MultiReader.ReadsDeliverLastMessage | 012_multi_reader_wait/driver.c:45-46 | in every reachable state the read that a woken thread finishes without a fault returns and delivers the message of the last write, unless a write has faulted since; a read that faults delivers nothing and does not count |
| MultiReader.CountWhenNotReady | 012_multi_reader_wait/driver.c:49-57 | for every number of readers R and every total, `data_ready == 0` implies `readers_count == 0` in all reachable states iff R <= 1 or the total is 1 |
| MultiReader.CountMayLinger | 012_multi_reader_wait/driver.c:49-57 | for every R >= 2 and every total >= 2 a run ends without data and with a count of one |
| MultiReader.AtomicDeliveryBound | 012_multi_reader_wait/driver.c:33-78 | when reads do not interleave at most total of them succeed per write, and without data the count is zero |
| KeypadQueue.Queue.Enqueue | 002_char_keypad_driver/queue_kernel.c:14-29 | appends to the FIFO, or returns -1 and changes nothing when 64 keys are queued |
| KeypadQueue.Queue.Dequeue | 002_char_keypad_driver/queue_kernel.c:32-47 | takes the oldest key, or returns -1 and leaves the caller's variable alone when empty |
| KeypadQueue.Queue.Empty | 002_char_keypad_driver/queue_kernel.c:50-58 | the draining loop ends, having taken out exactly what was queued, in order |
| KeypadQueue.Conservation | 002_char_keypad_driver/queue_kernel.c:14-58 | in every run the accepted keys are, in order, those delivered or cleared followed by those still queued |
| KeypadQueue.FirstInFirstOut | 002_char_keypad_driver/queue_kernel.c:14-47 | without clears the delivered keys are a prefix of the accepted ones and the queue holds the rest |
| KeypadQueue.Keypad.constructor | 002_char_keypad_driver/keypad_helper_kernel.c:35-55 | preloading keeps exactly the first 64 keys of the keymap, in order |
| KeypadQueue.Keypad.GetEvent | 002_char_keypad_driver/keypad_helper_kernel.c:23-27 | delivers the oldest key; on an empty queue the caller keeps what it had |
| KeypadQueue.Play | 002_char_keypad_driver/keypad_helper_kernel.c:17-55 | any sequential run of the helper, preloaded with a keymap or not, ends with the ring holding what the FIFO holds after the preloaded keys and the run, and has delivered its keys in order |
| KeypadQueue.AfterPreload | 002_char_keypad_driver/keypad_helper_kernel.c:35-55 | injecting the keys of a keymap one by one leaves exactly the first 64 keys before its NUL |
| PollDevice.ReadsReassemble | 014_poll_select/poll.c:43-65 | a reader that polls and reads in any positive sizes gets the data from its position on without gaps, and poll reports data exactly until the read that reaches the end |
| PollDevice.ReaderGetsMessage | 014_poll_select/poll.c:43-85 | for a non-empty message a reader that reads until poll reports nothing gets all of it exactly if its position was 0, and otherwise the part behind its position |
| PollDevice.WriterReadsBack | 014_poll_select/poll.c:77-80 | a write rewinds its own file: whatever its position was, polling and reading through it in any positive sizes then delivers exactly the message, and so it does through another file of the minor at position 0 |
| PollDevice.ReadReturns | 014_poll_select/poll.c:43-65 | a read returns the number of bytes it delivered, by which its position moved, or -EAGAIN exactly without an event on a non-blocking file, or -EFAULT, and then delivers nothing and stays |
| PollDevice.LastByteClearsEvent | 014_poll_select/poll.c:58-62 | the event is cleared by the read that takes the last byte and by no earlier one |
| PollDevice.NoEventMeansNoData | 014_poll_select/poll.c:43-85 | in every run `event_flag == 0` implies `buffer_size == 0` on every minor |
| PollDevice.MinorsAreIndependent | 014_poll_select/poll.c:23-85 | a run leaves alone the minors none of its files is open on |
| PollDevice.Driver.MyPoll | 014_poll_select/poll.c:30-41 | reports the minor's event flag |
| PollDevice.Driver.MyRead | 014_poll_select/poll.c:43-65 | the read of one minor, with partial copies: what it returns and delivers, where its position ends up, and that it clears event and size exactly when it is at the end; every other minor is unchanged |
| PollDevice.Driver.MyWrite | 014_poll_select/poll.c:67-85 | a write replaces the minor's message by at most 128 bytes, raises the event and sets its position to 0, or faults and moves neither size, event nor position; every other minor is unchanged |

## Left out

- The demos that only print, and the sysfs formatting, device-tree, GPIO, MMIO, power-management, timer, completion and tasklet examples: plumbing without a property of its own.
- Registration with the kernel, except in 010, where it is an acquire event that may fail and a release event.
- User-space applications, and the unknown-command case of the ioctls.
- Decoding of the unlock request (storage_kernel.c:147-153): an unlock comes with a decoded sector and key; the code's signed 3-bit field admits only sectors 0 to 3, so nothing is claimed about unlocking the others.
- The address argument of the mirror and backup ioctls in the sequential handlers: `BackupToFile` starts from a path that was copied in; the interleaved system has the faulting copy.
- Other users of the file a backup is written to, two backups to the same path among them: each backup has its own file.
- Weak memory ordering: each small step of the interleaved systems is seen by all threads at once.
- Interleaving inside the handlers of 002, 011 and 014, which take no lock for it (in 002 the final reset of queue_empty), and inside the post-wait part of a read of 012: these handlers run atomically here.
- The overflow of `readers_count` and `count` as C `int`: both are bounded by theorems above.
- Wake-up order and fairness: a waiting reader or writer takes its step whenever its condition holds.
- The error code of 014's failing load, and loading of 003, 011, 012 and 014 beyond the initial values of their globals.
- `total_readers` and the buffer capacities of 010 and 011 are arbitrary in the theorems; the code's constants are instances.
