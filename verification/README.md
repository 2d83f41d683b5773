# CottonOS kernel core in Dafny

This project models the core of CottonOS, a small x86_64 hobby operating system written in Rust, and proves properties of the model. It covers the process layer, kernel synchronisation, memory management, interrupt and segment tables, device drivers (keyboard, mouse, console, serial, PIT, ATA and partition tables), the file systems (the VFS layer, the RAM file system, DevFS and the on-disk CottonFS), the boot-time Multiboot2 walk, the kernel shell, the user-space shell and the state machines behind the GUI text editor, file manager and window list.

Every kernel structure is an immutable datatype and every operation a pure function from a state to a new state (with its result), so each contract talks about the whole state before and after. Hardware is reduced to what the code reads or writes: a port read becomes a parameter, a port write becomes an entry in a returned list, the VGA buffer is a sequence of 16-bit cells, a disk is a function from sector numbers to 512-byte sectors, and a CPUID leaf is a record of four 32-bit registers. Fixed-width integers are `bv8`/`bv16`/`bv32`/`bv64` or bounded `nat` subsets, and wrap-around is written out for the counters, offsets and address arithmetic the model states it for; the counters kept unbounded are named under "## Left out".

## Modules

| module | file | models |
|---|---|---|
| `Common` | common.dfy | Option/Result, bytes and little-endian packing, fixed-width integer helpers, decimal digits |
| `Proc` | process.dfy | the `Process` record, `Priority`, kernel and user constructors, register contexts, fork, `set_entry`/`set_arg` (kernel/src/proc/process.rs) |
| `Thread` | thread.dfy | the `Thread` record, tid and TLS-key counters, state transitions (kernel/src/proc/thread.rs) |
| `Scheduler` | scheduler.dfy | five run queues, `add_process`, `remove_process`, `timer_tick`, `select_next`, `schedule`, `stats` (kernel/src/proc/scheduler.rs) |
| `ProcTable` | proctable.dfy | the process table, pid allocation, fork, exit, wait, `all_pids` (kernel/src/proc/mod.rs) |
| `SyncSemaphore` | semaphore.dfy | counting and binary semaphores (kernel/src/sync/semaphore.rs) |
| `SyncMutex` | mutex.dfy | spin mutex with waiter list, recursive mutex, reader-writer lock as an interleaving of task steps (kernel/src/sync/mutex.rs) |
| `SyncCondvar` | condvar.dfy | condition-variable waiter queue, barrier, once (kernel/src/sync/condvar.rs) |
| `Arch` | arch.dfy | `without_interrupts` and the interrupt flag (kernel/src/arch/mod.rs) |
| `Bitmap` | bitmap.dfy | the frame bitmap and its set-bit count |
| `PhysicalMemory` | physical.dfy | the frame allocator (kernel/src/mm/physical.rs) |
| `Mm` | mm.dfy | page alignment, page/address conversion, memory-map totals (kernel/src/mm/mod.rs) |
| `VirtualMemory`, `FreeRegion` | virtual_mem.dfy, find_free.dfy | address-space regions, `map_region`, `unmap_region`, `find_free_region`, flag translation (kernel/src/mm/virtual_mem.rs) |
| `Paging` | paging.dfy | page-table entries, index split, `translate` over an abstract table map (kernel/src/arch/x86_64/paging.rs) |
| `Idt` | idt.dfy | gate packing, EOI routing, IRQ dispatch, syscall frame decoding (kernel/src/arch/x86_64/idt.rs) |
| `Gdt` | gdt.dfy | segment and TSS descriptors, selectors (kernel/src/arch/x86_64/gdt.rs) |
| `Cpu` | cpu.dfy | CPUID decoding and the brand string (kernel/src/arch/x86_64/cpu.rs) |
| `Pit` | pit.dfy | divisor, ticks, uptime, speaker bits (kernel/src/arch/x86_64/pit.rs) |
| `Serial` | serial.dfy | CRLF expansion and status-bit gating (kernel/src/arch/x86_64/serial.rs) |
| `Keyboard` | keyboard.dfy | scancode decoding, modifiers, E0 prefix, event buffer (kernel/src/drivers/keyboard.rs) |
| `Mouse` | mouse.dfy | PS/2 packet assembly, deltas, clamping (kernel/src/drivers/mouse.rs) |
| `TextGrid`, `Console` | text_grid.dfy, console.dfy | the 80×25 VGA text console (kernel/src/drivers/console.rs) |
| `BootVga` | boot_vga.dfy | the bootloader's VGA writer (bootloader/src/vga.rs) |
| `Storage` | storage.dfy | MBR and GPT parsing, device registry (kernel/src/drivers/storage/mod.rs) |
| `Ata` | ata.dfy | IDENTIFY decoding, LBA register encoding, sector packing, block-device guards (kernel/src/drivers/storage/ata.rs) |
| `CottonFs`, `DirRecords`, `CottonFiles`, `CottonDirs` | cottonfs.dfy, dir_records.dfy, cottonfs_files.dfy, cottonfs_dirs.dfy | superblock, bitmaps, inode and block allocation, directory records, file and directory inodes (kernel/src/fs/cottonfs.rs) |
| `FileData` | file_data.dfy | byte-level read/write/truncate shared by both file systems |
| `Vfs` | vfs.dfy | file modes, `Stat::default`, default inode and file-system answers (kernel/src/fs/vfs.rs) |
| `VfsPath`, `VfsResolve`, `VfsWorld` | vfs_path.dfy, vfs_resolve.dfy, vfs_world.dfy | `split_path`, mounts, `lookup`, `resolve_path`, file descriptors, `read_file`/`write_file` (kernel/src/fs/mod.rs) |
| `SortedMap`, `RamFs` | sorted_map.dfy, ramfs.dfy | the RAM file system over name-ordered maps (kernel/src/fs/mod.rs) |
| `DevFs` | devfs.dfy | the device directory and null/zero/random devices (kernel/src/fs/devfs.rs) |
| `Boot` | boot.dfy | the Multiboot2 tag walk, framebuffer choice, graphics gate, re-entry guard (kernel/src/main.rs) |
| `Text`, `KShell` | text.dfy, kshell.dfy | the kernel shell: paths, normalisation, command dispatch (kernel/src/shell.rs) |
| `UShell` | ushell.dfy | the user-space shell: line editing, `cd`, history, decimal printing (userspace/src/shell.rs) |
| `Editor`, `Gui` | editor.dfy, gui.dfy | the text editor state, file-manager history, windows and path box (kernel/src/gui/mod.rs) |

## Where the model follows the code rather than the design

- The scheduler serves run queue 4 (Realtime) first and queue 0 (Idle) last, because `select_next` scans the queues from the highest index down.
- `Semaphore::signal` always increments the count and also removes the oldest waiter; the waiter is not handed the unit directly.
- Mutex unlock (guard drop) does not check that the caller owns the lock.
- `CondVar` wakeups are left as a comment in the code, so notifying only changes the waiter queue.
- CottonFS `..` lookups fail with "No parent" during path resolution, as the code does.

## Model

| member | source | states |
|---|---|---|
| Scheduler.NewSched | kernel/src/proc/scheduler.rs:25-40 | a new scheduler has five empty run queues, no current or idle pid and zero ticks |
| Scheduler.LengthsCountQueued | kernel/src/proc/scheduler.rs:296-300 | the summed queue lengths equal the number of queued entries |
| Scheduler.QueuedEmpty | kernel/src/proc/scheduler.rs:130-139 | nothing is queued exactly when every one of the queues is empty |
| Scheduler.AddProcess | kernel/src/proc/scheduler.rs:65-72 | a known pid is appended at the tail of the queue of its priority and no other queue or field changes; an unknown pid changes nothing |
| Scheduler.AddProcessQueues | kernel/src/proc/scheduler.rs:65-72 | adding queues exactly one more entry of the pid |
| Scheduler.RemoveProcess | kernel/src/proc/scheduler.rs:75-85 | every copy of the pid leaves every queue, the rest keep their order, and current is cleared iff it was the pid |
| Scheduler.PurgeAllQueued | kernel/src/proc/scheduler.rs:75-85 | removal deletes every queued copy of the pid and leaves the count of every other pid unchanged |
| Scheduler.SelectNext | kernel/src/proc/scheduler.rs:130-140 | the head of the highest-index non-empty queue is popped and returned and no other queue changes; with all queues empty the idle pid is returned and nothing changes |
| Scheduler.SelectNextQueued | kernel/src/proc/scheduler.rs:130-140 | a selection removes exactly the selected entry from the queued multiset |
| Scheduler.Requeue | kernel/src/proc/scheduler.rs:154-165 | only a current process that was Running goes back, at the tail of its own priority queue, as Ready with a time slice of 10 |
| Scheduler.Schedule | kernel/src/proc/scheduler.rs:143-188 | a disabled scheduler changes nothing; otherwise a switch is reported iff current changed, the table keeps its pids, and the new current process is Running |
| Scheduler.ScheduleQueued | kernel/src/proc/scheduler.rs:143-188 | the queued entries plus a requeued Running process are conserved: one of them becomes current, or the idle pid is chosen when there are none |
| Scheduler.ScheduleNoRequeue | kernel/src/proc/scheduler.rs:154-165 | a pid that was not the Running current process gains no queue entry (Blocked, Sleeping and Zombie are not requeued) |
| Scheduler.ScheduleStrictPriority | kernel/src/proc/scheduler.rs:130-136 | after requeueing, the head of the highest non-empty queue becomes current |
| Scheduler.ScheduleAlternates | kernel/src/proc/scheduler.rs:154-187 | with a Running process and one other of the same priority queued, schedule switches to the other and requeues the first as Ready with slice 10 |
| Scheduler.RoundRobinTwoRounds | kernel/src/proc/scheduler.rs:154-187 | two processes alone in one queue alternate: two schedules bring back the first with the second queued again |
| Scheduler.YieldNow | kernel/src/proc/scheduler.rs:259-261 | yielding keeps the kernel valid and changes nothing when scheduling is disabled |
| Scheduler.Charge | kernel/src/proc/scheduler.rs:103-118 | a tick adds one to the scheduler ticks and to the current process's cpu time, decrements its slice saturating at 0, and changes no other process |
| Scheduler.TimerTick | kernel/src/proc/scheduler.rs:93-126 | the global tick count always advances; a disabled scheduler changes nothing else; an enabled one advances its own ticks |
| Scheduler.TimerTickKeepsCurrent | kernel/src/proc/scheduler.rs:103-126 | with more than one slice left the tick only charges the current process and does not reschedule |
| Scheduler.TimerTickPreempts | kernel/src/proc/scheduler.rs:103-126 | when the slice runs out the tick schedules, requeueing the Running process at the tail of its queue with a fresh slice of 10 |
| Scheduler.Stats | kernel/src/proc/scheduler.rs:296-300 | stats reports the number of queued entries, 1 iff there is a current pid, and the scheduler ticks |
| ProcTable.AllocPid | kernel/src/proc/mod.rs:36-41 | the returned pid is the counter, the counter moves past it, and a pid from a counter above every table key is not in the table |
| ProcTable.AllocPidsIncreasing | kernel/src/proc/mod.rs:36-41 | successive allocations are strictly increasing, hence never repeated |
| ProcTable.Boot | kernel/src/proc/mod.rs:22-33 | boot succeeds iff the init process's frames are available, and then the table holds init as pid 1 |
| ProcTable.Start | kernel/src/proc/scheduler.rs:247-249 | starting only sets the scheduler-enabled flag |
| ProcTable.AddProcess | kernel/src/proc/mod.rs:49-53 | the process is inserted into the table and exactly one entry of its pid is appended to the queue of its priority |
| ProcTable.RemoveProcess | kernel/src/proc/mod.rs:56-59 | the table entry goes, every queued copy of the pid goes, other queued entries stay, and current is cleared iff it was the pid |
| ProcTable.Current | kernel/src/proc/mod.rs:62-65 | the current process is present iff there is a current pid with a table entry, and is that entry |
| ProcTable.Fork | kernel/src/proc/mod.rs:68-74 | with no current process fork returns None and changes nothing; a child gets a fresh pid not in the table and is added |
| ProcTable.Exit | kernel/src/proc/mod.rs:77-86 | exit keeps the set of pids in the table |
| ProcTable.ExitMakesZombie | kernel/src/proc/mod.rs:77-86 | the exiting process becomes a Zombie holding the status, is no longer current and is never requeued |
| ProcTable.WaitOnce | kernel/src/proc/mod.rs:89-105 | an unknown pid gives None; a Zombie gives its exit status and loses its table entry only; any other state keeps waiting |
| ProcTable.WaitTwice | kernel/src/proc/mod.rs:89-105 | reaping is single-shot: a second wait on the same pid gives None |
| ProcTable.ReapVersusRemove | kernel/src/proc/mod.rs:56-97 | reaping leaves the run queues alone while remove_process purges them; both drop the same table entry |
| ProcTable.ProcessCount | kernel/src/proc/mod.rs:119-121 | the count is the size of the table |
| ProcTable.AllPids | kernel/src/proc/mod.rs:114-117 | the result lists each table key exactly once, in ascending order |
| Proc.DefaultPriority | kernel/src/proc/process.rs:39-43 | the default priority is Normal, queue index 2 |
| Proc.PriorityIndexInjective | kernel/src/proc/process.rs:30-37 | priorities map one-to-one onto queue indexes 0 to 4 in the order Idle, Low, Normal, High, Realtime |
| Proc.KernelContext | kernel/src/proc/process.rs:208-215 | a kernel context has rsp at the kernel stack, rflags 0x202, cs 0x08 and ss 0x10, with every other register kept |
| Proc.UserContext | kernel/src/proc/process.rs:225-232 | a user context has rsp 0x7FFF_FFFF_F000, rflags 0x202, cs 0x1B and ss 0x23, with every other register kept |
| Proc.NewKernel | kernel/src/proc/process.rs:139-168 | construction succeeds iff the frames are allocated, giving Created, Normal, slice 10, no parent or status, 256 empty descriptor slots, cwd "/" and a kernel context on the stack top |
| Proc.NewUser | kernel/src/proc/process.rs:171-204 | construction succeeds iff all three allocations do, with the parent recorded and both stacks at their allocation base plus 16384 |
| Proc.Fork | kernel/src/proc/process.rs:242-261 | the child has the fresh pid and the parent's context, priority, cwd, descriptors and kind; its parent is none for a kernel process and the parent's pid for a user one |
| Proc.SetEntry | kernel/src/proc/process.rs:264-274 | only rip changes, to the entry |
| Proc.SetArg | kernel/src/proc/process.rs:277-287 | only rdi changes, to the argument |
| Proc.SetEntryArgCommute | kernel/src/proc/process.rs:264-287 | setting the entry and the argument commute, and setting the entry twice is setting it once |
| Thread.FetchAdd | kernel/src/proc/thread.rs:15-17 | fetch_add returns the old counter and advances it by one, wrapping at 2^64 |
| Thread.AllocTid | kernel/src/proc/thread.rs:15-17 | the thread id is the counter value before the increment |
| Thread.AllocTlsKey | kernel/src/proc/thread.rs:190-192 | the key is the counter truncated to 32 bits, equal to it below 2^32 |
| Thread.AllocIncreasing | kernel/src/proc/thread.rs:15-192 | successive thread ids and TLS keys are strictly increasing below 2^32 |
| Thread.TlsKeyTruncates | kernel/src/proc/thread.rs:190-192 | the key at counter 2^32 wraps to 0 |
| Thread.NewKernelThread | kernel/src/proc/thread.rs:63-105 | creation succeeds iff two frames are allocated, giving Created, rsp equal to the kernel stack at base plus 8192, rip the entry, rdi the argument and slice 10 |
| Thread.NewUserThread | kernel/src/proc/thread.rs:108-150 | creation succeeds iff the kernel stack frames are allocated, with the user stack as given, ring-3 selectors and rdi the argument |
| Thread.Exit | kernel/src/proc/thread.rs:153-156 | exit records Some(value) and Terminated and changes nothing else |
| Thread.YieldNow | kernel/src/proc/thread.rs:159-163 | Running becomes Ready and every other state is kept |
| Thread.Sleep | kernel/src/proc/thread.rs:166-168 | the state becomes Sleeping unconditionally and nothing else changes |
| Thread.Wake | kernel/src/proc/thread.rs:171-175 | Sleeping or Blocked become Ready and every other state is kept |
| Thread.Block | kernel/src/proc/thread.rs:178-180 | the state becomes Blocked unconditionally and nothing else changes |
| Thread.ThreadTransitions | kernel/src/proc/thread.rs:153-180 | wake undoes sleep and block, yield and wake are idempotent, and a Terminated thread is left alone by yield and wake |
| Scheduler.HighestNonEmpty | kernel/src/proc/scheduler.rs:132-137 | the queue served is the highest-numbered non-empty one below the bound, and none is found exactly when all those queues are empty |
| SyncSemaphore.WrappingInc | kernel/src/sync/semaphore.rs:58-60 | the atomic increment adds one and wraps from isize::MAX to isize::MIN |
| SyncSemaphore.New | kernel/src/sync/semaphore.rs:16-21 | a new semaphore holds the given count and no waiters |
| SyncSemaphore.WaitStep | kernel/src/sync/semaphore.rs:24-40 | one step of wait succeeds iff the count is positive, then decrementing it by exactly one without queueing; otherwise the caller is appended to the waiters and the count is unchanged |
| SyncSemaphore.TryWait | kernel/src/sync/semaphore.rs:43-55 | try_wait returns true and decrements iff the count is positive, and otherwise changes nothing |
| SyncSemaphore.Signal | kernel/src/sync/semaphore.rs:58-65 | signal always increments the count and drops the oldest waiter if there is one |
| SyncSemaphore.Conservation | kernel/src/sync/semaphore.rs:24-65 | over any run the count is the initial count plus the signals minus the successful waits, and it never goes negative from a non-negative start |
| SyncSemaphore.NewBinary | kernel/src/sync/semaphore.rs:79-83 | a binary semaphore starts at 1 when available and 0 otherwise |
| SyncSemaphore.Release | kernel/src/sync/semaphore.rs:93-98 | release signals only while the count is below 1 |
| SyncSemaphore.BinaryStaysBinary | kernel/src/sync/semaphore.rs:79-99 | acquire, try_acquire and release keep the count in {0, 1}, and release leaves it at 1 |
| SyncSemaphore.BinaryRun | kernel/src/sync/semaphore.rs:79-99 | over any run of binary-semaphore operations the count stays in {0, 1} |
| SyncMutex.TryLock | kernel/src/sync/mutex.rs:33-42 | try_lock succeeds iff the mutex is unlocked, then setting locked and the caller as owner; a failure changes nothing |
| SyncMutex.LockStep | kernel/src/sync/mutex.rs:45-58 | one iteration of lock either acquires as try_lock does or appends the caller to the waiters |
| SyncMutex.Unlock | kernel/src/sync/mutex.rs:65-73 | unlocking clears locked, resets the owner to 0 and pops the oldest waiter, whoever calls it |
| SyncMutex.LockRetryDuplicates | kernel/src/sync/mutex.rs:45-58 | a caller that fails twice is queued twice |
| SyncMutex.MutexStepPreserves | kernel/src/sync/mutex.rs:33-99 | every step of any task keeps the holder count at most one and in step with the lock word |
| SyncMutex.MutualExclusion | kernel/src/sync/mutex.rs:34 | from a fresh mutex, after any interleaving, at most one task holds the lock, the holder is the recorded owner, and nobody holds an unlocked mutex |
| SyncMutex.RecursiveLockStep | kernel/src/sync/mutex.rs:122-145 | a lock attempt succeeds iff the mutex is free or already owned by the caller; a re-lock increments the count and a fresh acquire sets the owner with count 1 |
| SyncMutex.RecursiveUnlock | kernel/src/sync/mutex.rs:147-153 | unlock decrements the count and releases only when it drops from 1 |
| SyncMutex.NestedLocks | kernel/src/sync/mutex.rs:122-153 | n nested locks leave count n, n-1 unlocks leave it held with count 1, and the n-th unlock releases it |
| SyncMutex.RecursiveExcludes | kernel/src/sync/mutex.rs:122-145 | another task's attempt on an owned recursive mutex fails and changes nothing |
| SyncMutex.ReadStep | kernel/src/sync/mutex.rs:199-251 | a reader increments, rechecks the writer flag and backs out its own increment while a writer is set, and its guard drop undoes its increment |
| SyncMutex.WriteStep | kernel/src/sync/mutex.rs:219-275 | a writer sets the flag when it is clear, proceeds only once readers is 0, and its guard drop clears the flag |
| SyncMutex.ReaderBacksOut | kernel/src/sync/mutex.rs:199-217 | a reader that finds a writer leaves the lock as it was |
| SyncMutex.RwStepPreserves | kernel/src/sync/mutex.rs:199-275 | every step keeps the readers count equal to the readers inside, and the writer flag owned by at most one writer |
| SyncMutex.RwExclusion | kernel/src/sync/mutex.rs:199-232 | after any interleaving no reader holds the lock while a writer does, and at most one writer holds it |
| SyncCondvar.Enqueue | kernel/src/sync/condvar.rs:22-26 | the caller's pid joins the tail of the waiters |
| SyncCondvar.Wait | kernel/src/sync/condvar.rs:22-35 | wait enqueues the caller before the guard is released |
| SyncCondvar.NotifyOne | kernel/src/sync/condvar.rs:38-43 | notify_one removes exactly the oldest waiter |
| SyncCondvar.NotifyAll | kernel/src/sync/condvar.rs:45-50 | notify_all empties the queue |
| SyncCondvar.HasWaiters | kernel/src/sync/condvar.rs:53-55 | has_waiters holds iff the queue is non-empty |
| SyncCondvar.NotifyOneDrains | kernel/src/sync/condvar.rs:38-55 | one notify_one per waiter has the effect of notify_all |
| SyncCondvar.NoLostWakeup | kernel/src/sync/condvar.rs:22-43 | a waiter is queued before the mutex is released, so notifications after the release reach it in FIFO order |
| SyncCondvar.NewBarrier | kernel/src/sync/condvar.rs:68-75 | a new barrier counts nobody, is in generation 0 and has no waiters |
| SyncCondvar.Arrive | kernel/src/sync/condvar.rs:78-95 | the arrival that makes current reach count resets current to 0, advances the generation, clears the waiters and returns true; other arrivals only increment current |
| SyncCondvar.Register | kernel/src/sync/condvar.rs:98-104 | a follower appends its pid to the waiters and changes nothing else |
| SyncCondvar.Poll | kernel/src/sync/condvar.rs:106-114 | a follower returns only once the generation differs from its snapshot |
| SyncCondvar.ZeroBarrierNeverReleases | kernel/src/sync/condvar.rs:78-95 | a barrier for 0 tasks never releases |
| SyncCondvar.BarrierFixedPreserves | kernel/src/sync/condvar.rs:78-114 | with the generation read under the same critical section as the arrival, every step keeps current equal to the tasks waiting in the current generation |
| SyncCondvar.BarrierFixedSound | kernel/src/sync/condvar.rs:78-114 | from a fresh barrier, after any interleaving, current counts exactly the tasks waiting in the current generation and stays below count |
| SyncCondvar.BarrierStaleSnapshot | kernel/src/sync/condvar.rs:79-114 | as written, a concrete three-task schedule leaves current at 1 with no task waiting in the generation, after a task returned false |
| SyncCondvar.OnceStepPreserves | kernel/src/sync/condvar.rs:132-157 | every step keeps the running flag, the done flag and the number of runs of f in step |
| SyncCondvar.OnceAtMostOnce | kernel/src/sync/condvar.rs:132-161 | after any interleaving f has run at most once, exactly once when completed, and a later call returns without running it |
| Arch.InterruptsEnabled | kernel/src/arch/mod.rs:43-49 | the flag reported is RFLAGS bit 9 |
| Arch.WithoutInterrupts | kernel/src/arch/mod.rs:52-68 | f runs with interrupts disabled and its result is returned unchanged; cli and sti happen iff interrupts were on, sti last |
| Arch.WithoutInterruptsRestores | kernel/src/arch/mod.rs:56-65 | when f leaves interrupts off, the flag afterwards equals its value before |
| SyncMutex.MutexRunPreserves | kernel/src/sync/mutex.rs:33-99 | over any interleaving of lock, try_lock and unlock steps the holder count stays at most one and in step with the lock word |
| SyncMutex.RwRunPreserves | kernel/src/sync/mutex.rs:199-275 | over any interleaving of reader and writer steps the readers count and writer flag stay in step with the tasks inside |
| SyncCondvar.OnceRunPreserves | kernel/src/sync/condvar.rs:132-157 | over any interleaving of call_once steps the running and done flags stay in step with the runs of f |
| SyncCondvar.BarrierFixedRun | kernel/src/sync/condvar.rs:78-114 | over any interleaving of the corrected barrier the invariant holds and the party count never changes |
| Mm.PageAlignDown | kernel/src/mm/mod.rs:112-114 | the result is a multiple of 4096, at most the address and within 4095 of it |
| Mm.PageAlignUp | kernel/src/mm/mod.rs:118-120 | the result is a multiple of 4096 and, absent overflow, at least the address and within 4095 of it |
| Mm.PageAlignUpWraps | kernel/src/mm/mod.rs:118-120 | aligning up the top address wraps to 0 |
| Mm.AlignIdempotent | kernel/src/mm/mod.rs:112-120 | both alignments are the identity on aligned addresses, hence idempotent |
| Mm.AddrToPage | kernel/src/mm/mod.rs:124-126 | the page number is the one whose 4096-byte frame holds the address |
| Mm.PageToAddr | kernel/src/mm/mod.rs:130-132 | below 2^52 the address is the page number times 4096 |
| Mm.PageAddrRoundTrip | kernel/src/mm/mod.rs:124-132 | page_to_addr(addr_to_page(a)) is page_align_down(a), and addr_to_page(page_to_addr(p)) is p below 2^52 |
| Mm.UpdateStats | kernel/src/mm/mod.rs:147-152 | the page counters are stored, used memory is used pages times 4096, and the memory totals are untouched |
| Mm.ParseMemoryMap | kernel/src/mm/mod.rs:87-109 | without a memory map the totals become 128 MiB and 64 MiB; the page counters are never touched |
| Mm.AvailableAtMostTotal | kernel/src/mm/mod.rs:96-107 | the available length never exceeds the total length |
| Mm.ParseMemoryMapSums | kernel/src/mm/mod.rs:96-107 | absent overflow, total memory grows by every entry's length and available memory by the available entries' lengths |
| PhysicalMemory.New | kernel/src/mm/physical.rs:32-39 | a new allocator has every page allocated and counts no free page |
| PhysicalMemory.MarkAllocated | kernel/src/mm/physical.rs:106-121 | the page is allocated afterwards and the hint and total are unchanged |
| PhysicalMemory.MarkFree | kernel/src/mm/physical.rs:123-137 | an in-range page is free afterwards and the total only grows |
| PhysicalMemory.MarkAllocatedSpec | kernel/src/mm/physical.rs:106-121 | exactly the page is added to the allocated set, and free_pages drops by one iff a bit actually flipped, keeping the counter equal to the clear bits |
| PhysicalMemory.MarkFreeSpec | kernel/src/mm/physical.rs:123-137 | exactly an in-range page leaves the allocated set, free_pages rises by one iff a bit flipped, out-of-range pages are no-ops, and the total is raised past the page |
| PhysicalMemory.HintIrrelevant | kernel/src/mm/physical.rs:139-147 | whether a page is allocated depends on the bitmap alone, and out-of-range pages count as allocated |
| PhysicalMemory.MarkAllocatedRangeSpec | kernel/src/mm/physical.rs:193-197 | marking a range allocated adds exactly that range to the allocated set |
| PhysicalMemory.MarkAllocatedRange | kernel/src/mm/physical.rs:195-197 | marking a range allocated changes neither the first-free hint nor the total page count |
| PhysicalMemory.MarkFreeRangeSpec | kernel/src/mm/physical.rs:54-232 | freeing a range removes exactly its in-range pages from the allocated set |
| PhysicalMemory.MarkFreeRangeNoop | kernel/src/mm/physical.rs:222-235 | freeing pages that are already free changes nothing |
| PhysicalMemory.NoFreePage | kernel/src/mm/physical.rs:106-137 | every page is allocated iff free_pages is 0 |
| PhysicalMemory.FirstFreePage | kernel/src/mm/physical.rs:155-166 | the scan returns the first free page of the range, or None when all are allocated |
| PhysicalMemory.Alloc | kernel/src/mm/physical.rs:150-170 | alloc returns page*4096 for the first free page from the hint, wrapping to 0, marks it and sets the hint past it; it returns None iff no page is free, changing nothing |
| PhysicalMemory.AllocSpec | kernel/src/mm/physical.rs:150-170 | an allocation succeeds iff free_pages is positive, adds exactly its page to the allocated set and takes one from free_pages |
| PhysicalMemory.AllocContiguous | kernel/src/mm/physical.rs:173-206 | zero pages fail, one page is alloc, and more pages succeed iff a run of free pages exists at or after the hint, returning the lowest such run, all now allocated, with the hint untouched |
| PhysicalMemory.RunTaken | kernel/src/mm/physical.rs:193-235 | taking a free run marks exactly its pages, and freeing them again restores the allocation |
| PhysicalMemory.FindRun | kernel/src/mm/physical.rs:180-204 | the search returns the lowest run of free pages at or after the hint, or None when there is none |
| PhysicalMemory.Free | kernel/src/mm/physical.rs:209-219 | freeing an allocated in-range page frees it and lowers the hint to it at most; anything else changes nothing |
| PhysicalMemory.FreeIdempotent | kernel/src/mm/physical.rs:209-219 | freeing an address twice is freeing it once |
| PhysicalMemory.AllocFreeRoundTrip | kernel/src/mm/physical.rs:150-219 | freeing what alloc returned restores the allocated set and the counters |
| PhysicalMemory.FreeContiguous | kernel/src/mm/physical.rs:222-235 | every in-range page of the range is free afterwards, and the hint is lowered to the range start at most |
| PhysicalMemory.FreeContiguousIdempotent | kernel/src/mm/physical.rs:222-235 | freeing a range twice is freeing it once |
| PhysicalMemory.FreeContiguousSpec | kernel/src/mm/physical.rs:222-235 | freeing a range removes exactly its in-range pages from the allocated set |
| PhysicalMemory.Stats | kernel/src/mm/physical.rs:287-293 | total is total_pages*4096, free is free_pages*4096 and used is their difference |
| PhysicalMemory.StatsDefined | kernel/src/mm/physical.rs:287-293 | in a consistent allocator free pages never exceed total pages, so the subtraction does not underflow |
| PhysicalMemory.FreeEntriesSpec | kernel/src/mm/physical.rs:58-72 | freeing the available entries frees exactly the in-range pages of their page-aligned interiors |
| PhysicalMemory.Init | kernel/src/mm/physical.rs:42-104 | init reports free_pages and total minus free to update_stats |
| PhysicalMemory.ResetAll | kernel/src/mm/physical.rs:43-46 | setting every bitmap byte to 0xFF allocates every page |
| PhysicalMemory.FreeOfferedSpec | kernel/src/mm/physical.rs:48-74 | from an all-allocated bitmap the free pages are exactly those the memory map offers, or pages 256 to 32767 without one |
| PhysicalMemory.InitPagesSpec | kernel/src/mm/physical.rs:42-92 | after init a page is free iff the boot information offers it, it is above the first MiB and it is outside the kernel |
| PhysicalMemory.InitSound | kernel/src/mm/physical.rs:42-104 | init from a fresh allocator succeeds, stays consistent, frees exactly the offered pages outside low memory and the kernel, and sets the hint to the lowest free page |
| PhysicalMemory.HintedSound | kernel/src/mm/physical.rs:94-101 | setting the hint keeps the allocator consistent and its pages as they were |
| PhysicalMemory.LowestHint | kernel/src/mm/physical.rs:94-101 | the hint init computes is the lowest free page, or 0 when none is free |
| Bitmap.BitTestForms | kernel/src/fs/cottonfs.rs:1306-1313 | the shift-and-mask test of get_bit agrees with the AND-with-mask test of physical.rs is_allocated |
| Bitmap.BitOfOr | kernel/src/fs/cottonfs.rs:1316-1322 | OR-ing in the mask for bit k sets bit k and leaves every other bit of the byte as it was |
| Bitmap.BitOfAndNot | kernel/src/fs/cottonfs.rs:1325-1331 | AND-ing with the inverted mask for bit k clears bit k and leaves every other bit of the byte as it was |
| Bitmap.SetBit | kernel/src/fs/cottonfs.rs:1316-1322 | set_bit keeps the map's length, sets the bit when its byte exists, and is a no-op past the end |
| Bitmap.ClearBit | kernel/src/fs/cottonfs.rs:1325-1331 | clear_bit keeps the map's length, leaves the bit reading clear, and is a no-op past the end |
| Bitmap.GetSetBit | kernel/src/fs/cottonfs.rs:1306-1322 | after set_bit(i), bit j reads set exactly when it was set before or j is i and in range |
| Bitmap.GetClearBit | kernel/src/fs/cottonfs.rs:1306-1331 | after clear_bit(i), bit j reads set exactly when j is not i and it was set before |
| Bitmap.CountAfterSet | kernel/src/mm/physical.rs:106-121 | setting a bit that was clear and in range raises the count of set bits by exactly one, otherwise leaves it |
| Bitmap.CountAfterClear | kernel/src/mm/physical.rs:123-137 | clearing a bit that was set lowers the count of set bits by exactly one, otherwise leaves it |
| Bitmap.CountFull | kernel/src/mm/physical.rs:43-45 | a map filled with 0xFF has every in-range bit counted as set |
| Bitmap.CountEmpty | kernel/src/fs/cottonfs.rs:1306-1313 | an all-zero map has no bit set |
| Bitmap.CountSetFull | kernel/src/mm/physical.rs:150-170 | the count of set bits below n is n exactly when every bit below n is set, so a short count means a free bit exists |
| Bitmap.ClearSetBit | kernel/src/fs/cottonfs.rs:1316-1331 | clearing a bit that was just set, and clear before, restores the whole map |
| Bitmap.ZerosClear | kernel/src/fs/cottonfs.rs:1306-1313 | every bit of an all-zero map reads clear, including past the end |
| Bitmap.OnesSet | kernel/src/fs/cottonfs.rs:1306-1313 | every bit of an all-ones map reads set exactly when its byte exists |
| Bitmap.FirstClear | kernel/src/mm/physical.rs:150-170 | the first clear bit in a range: the result is clear and every bit before it is set, and None means the whole range is set |
| VirtualMemory.New | kernel/src/mm/virtual_mem.rs:45-60 | an address space exists exactly when a root frame was allocated, and starts with no regions |
| VirtualMemory.OverlapsMeansShared | kernel/src/mm/virtual_mem.rs:66-70 | for non-empty ranges the overlap test holds exactly when some address lies in both |
| VirtualMemory.PairwiseDistinct | kernel/src/mm/virtual_mem.rs:66-70 | positionally disjoint regions are also disjoint as distinct members |
| VirtualMemory.NumPagesCeil | kernel/src/mm/virtual_mem.rs:82 | without wrap, the page count is the least number of 4096-byte pages covering the size |
| VirtualMemory.PageVirt | kernel/src/mm/virtual_mem.rs:84 | without wrap, the i-th page lies 4096*i bytes past the start |
| VirtualMemory.MapRegion | kernel/src/mm/virtual_mem.rs:62-91 | fails for overlap exactly when an existing region meets the new range, then changing nothing; otherwise appends the region and maps one frame per page in order, failing for out of memory exactly when frames run short |
| VirtualMemory.MapRegionKeepsDisjoint | kernel/src/mm/virtual_mem.rs:62-91 | map_region keeps the regions pairwise disjoint |
| VirtualMemory.FindStart | kernel/src/mm/virtual_mem.rs:169-170 | the position found is the first region starting at the address, and None means no region does |
| VirtualMemory.UnmapRegion | kernel/src/mm/virtual_mem.rs:168-182 | fails with "Region not found" exactly when no region starts at the address; otherwise removes the first such region and unmaps its pages in order, stopping at the first unmapped page |
| VirtualMemory.UnmapRegionKeepsDisjoint | kernel/src/mm/virtual_mem.rs:168-182 | removing a region keeps the rest pairwise disjoint |
| VirtualMemory.VmToArchFlagsBits | kernel/src/mm/virtual_mem.rs:113-133 | the entry bits are PRESENT always, WRITABLE iff WRITE, USER iff USER, NO_EXECUTE iff not EXECUTE, NO_CACHE iff MMIO, and nothing else |
| VirtualMemory.VmToArchFlagsEntry | kernel/src/mm/virtual_mem.rs:93-98 | a page entry built from the translated flags is present, writable iff WRITE, user iff USER, and never huge |
| FreeRegion.InsertByStart | kernel/src/mm/virtual_mem.rs:216 | inserting into a start-sorted list keeps it sorted and adds exactly the one region |
| FreeRegion.SortByStart | kernel/src/mm/virtual_mem.rs:215-216 | the result is sorted by start and a permutation of the regions |
| FreeRegion.SortSameMembers | kernel/src/mm/virtual_mem.rs:215-216 | sorting keeps exactly the same regions |
| FreeRegion.ScanAsWritten | kernel/src/mm/virtual_mem.rs:218-230 | the scan as written answers either its starting cursor or the end of some region |
| FreeRegion.FindFreeRegionBelowStart | kernel/src/mm/virtual_mem.rs:200-232 | a user region below 256 MiB makes the search answer an address below user space |
| FreeRegion.FindFreeRegionWraps | kernel/src/mm/virtual_mem.rs:227 | a huge size wraps the end check and the search answers a range running past user space |
| FreeRegion.ScanAsWrittenDisjoint | kernel/src/mm/virtual_mem.rs:218-230 | over sorted well-formed regions, what the scan answers overlaps none of them |
| FreeRegion.FindFreeRegionAsWrittenDisjoint | kernel/src/mm/virtual_mem.rs:200-232 | over disjoint non-empty regions, the address found overlaps none of them |
| FreeRegion.ScanFixedSound | kernel/src/mm/virtual_mem.rs:218-230 | the corrected scan answers an address at or above its cursor, without wrap, overlapping no region, and ending below the limit or below some region's start |
| FreeRegion.FindFreeRegionFixedSound | kernel/src/mm/virtual_mem.rs:200-232 | the corrected search answers an address inside the space's lower bound, overlapping no region, and ending before the space's end or a region |
| FreeRegion.FindFreeRegionFixedOnLowRegion | kernel/src/mm/virtual_mem.rs:200-232 | with a region below user space, the corrected search answers the start of user space |
| FreeRegion.KernelAlloc | kernel/src/mm/virtual_mem.rs:266-275 | kernel_alloc searches with find_free_region as written; it changes nothing when no free range is found, and on success returns the address found, appends the "kernel_alloc" region there, and had enough frames |
| FreeRegion.KernelAllocRecords | kernel/src/mm/virtual_mem.rs:266-275 | over disjoint non-empty regions, when the search finds an address, kernel_alloc succeeds exactly when there are frames for every page, and the region it records is the one at that address |
| FreeRegion.KernelAllocBelowStart | kernel/src/mm/virtual_mem.rs:200-232 | with a kernel region [0x1000, 0x2000), allocating 0x1000 bytes answers 0x2000, below the kernel space's start |
| VirtualMemory.UnmapPages | kernel/src/mm/virtual_mem.rs:175-178 | the unmap loop unmaps the region's pages in order from the first, and stops early only at a page that is not mapped |
| VirtualMemory.PagePairs | kernel/src/mm/virtual_mem.rs:81-85 | the i-th page of a mapping is the region start plus i pages, paired with the i-th frame |
| Paging.NewPte | kernel/src/arch/x86_64/paging.rs:29-31 | when the flags carry no address bits, the entry's address is the given address's bits 12-51 and its flags are exactly the given flags |
| Paging.MasksComplementary | kernel/src/arch/x86_64/paging.rs:49-55 | the address and flag masks split an entry: their OR is the raw entry and they share no bit |
| Paging.NewPteQueries | kernel/src/arch/x86_64/paging.rs:6-17 | is_present, is_writable, is_user and is_huge of a new entry test bits 0, 1, 2 and 7 of the flags given |
| Paging.SetAddr | kernel/src/arch/x86_64/paging.rs:57-59 | set_addr keeps the flags and stores the address's bits 12-51 |
| Paging.SetFlags | kernel/src/arch/x86_64/paging.rs:61-63 | set_flags keeps the address whenever the new flags carry no address bits, and stores the flags |
| Paging.FromAddr | kernel/src/arch/x86_64/paging.rs:98-106 | each table index is below 512 and the offset below 4096 |
| Paging.FromAddrRecombine | kernel/src/arch/x86_64/paging.rs:98-106 | the indices shifted back into place and OR-ed with the offset give the low 48 bits of the address |
| Paging.Walk | kernel/src/arch/x86_64/paging.rs:260-301 | a successful walk ends at a 4 KiB-aligned frame and selects the 1 GiB, 2 MiB or 4 KiB offset mask |
| Paging.Translate | kernel/src/arch/x86_64/paging.rs:260-301 | translation fails exactly when the walk does, and whatever the page size the translated address keeps the virtual address's low twelve bits |
| Paging.TranslateFails | kernel/src/arch/x86_64/paging.rs:260-301 | translation fails exactly when it meets a non-present entry before reaching a leaf |
| Paging.TranslateGigaPage | kernel/src/arch/x86_64/paging.rs:275-279 | a huge PDPT entry translates to its frame plus the virtual address's low 30 bits |
| Paging.TranslateMegaPage | kernel/src/arch/x86_64/paging.rs:287-291 | a huge PD entry translates to its frame plus the virtual address's low 21 bits |
| Paging.TranslateSmallPage | kernel/src/arch/x86_64/paging.rs:293-299 | a 4 KiB leaf translates to its frame with the 12-bit page offset in its low bits |
| Paging.AlignedAddIsOr | kernel/src/arch/x86_64/paging.rs:277 | on a frame aligned to the page size, adding the offset equals OR-ing it in |
| Idt.OffsetsRecombine | kernel/src/arch/x86_64/idt.rs:53-55 | the low, middle and high offset fields put back in place give the whole 64-bit handler address |
| Idt.NewEntry | kernel/src/arch/x86_64/idt.rs:40-50 | a new entry reads back the handler it was given, with the selector and IST index given and a zero reserved word |
| Idt.SetHandler | kernel/src/arch/x86_64/idt.rs:52-58 | set_handler makes the entry read back the handler, with the kernel code selector and a present ring-0 interrupt gate, keeping the IST index |
| Idt.TypeAttrFields | kernel/src/arch/x86_64/idt.rs:40-50 | the type byte has the present bit, the privilege level in bits 5-6 and the gate type in the low nibble; a ring-3 trap gate is 0xEF and a ring-0 interrupt gate 0x8E |
| Idt.SetHandlerOnNull | kernel/src/arch/x86_64/idt.rs:28-58 | set_handler on a null entry equals a new ring-0 interrupt gate on the kernel code selector with IST 0 |
| Idt.Init | kernel/src/arch/x86_64/idt.rs:80-140 | the loaded table has 256 entries, each the one init installs for its vector |
| Idt.InitTable | kernel/src/arch/x86_64/idt.rs:80-140 | a vector is present exactly when init installs it (exceptions 0-20 but 9 and 15, IRQs 32-47, double fault, 0x80); installed vectors reach their stub on the kernel code selector; only the double fault uses IST 1; only 0x80 is a ring-3 trap gate |
| Idt.PicRouting | kernel/src/arch/x86_64/idt.rs:142-174 | after remapping, IRQ n raises vector 32+n, whose entry is present and reaches the IRQ n stub; the cascade mask names the slave's line; all lines end unmasked |
| Idt.SendEoi | kernel/src/arch/x86_64/idt.rs:176-186 | send_eoi always ends with an EOI to the master, also sends one to the slave exactly for IRQs 8 and up, and writes nothing else |
| Idt.EoiReachesServingChips | kernel/src/arch/x86_64/idt.rs:142-186 | the slave gets an EOI exactly for the IRQs it serves, the master for every IRQ |
| Idt.IrqCommon | kernel/src/arch/x86_64/idt.rs:444-452 | the timer runs for IRQ 0, the keyboard for IRQ 1, the mouse for IRQ 12, nothing otherwise, and the EOI always follows |
| Idt.SaveRestore | kernel/src/arch/x86_64/idt.rs:518-556 | the pops of the syscall stub restore every register its pushes saved |
| Idt.DecodeSyscallAsWrittenSlots | kernel/src/arch/x86_64/idt.rs:557-566 | the slots read as written hold rax, rdi, rbp, r8, r9 and r10, not the registers the comments name |
| Idt.DecodeSyscallLosesRsi | kernel/src/arch/x86_64/idt.rs:557-566 | a call whose second argument is in rsi reaches the handler with that argument lost |
| Idt.DecodeSyscallConvention | kernel/src/arch/x86_64/idt.rs:557-566 | reading slots 14, 9, 10, 11, 5 and 7 gives rax, rdi, rsi, rdx, r10 and r8 as the comments intend |
| Gdt.NewEntryRoundTrip | kernel/src/arch/x86_64/gdt.rs:29-38 | a descriptor reads back its whole 32-bit base and the low 20 bits of its limit, and keeps the four flag bits of the granularity byte |
| Gdt.SegmentKinds | kernel/src/arch/x86_64/gdt.rs:40-59 | the four flat segments are present with base 0 and a page-granular full limit; code segments are executable 64-bit, data segments are not executable; kernel ones have privilege 0 and user ones 3 |
| Gdt.NewTss | kernel/src/arch/x86_64/gdt.rs:89-100 | the TSS descriptor stores the size given as its length, type byte 0x89 and zero reserved fields |
| Gdt.NewTssRoundTrip | kernel/src/arch/x86_64/gdt.rs:89-100 | the TSS descriptor reads back the whole 64-bit TSS address and is a present available 64-bit TSS |
| Gdt.TssLayout | kernel/src/arch/x86_64/gdt.rs:105-141 | the packed task-state segment is 104 bytes, so the I/O map base equals its size and no permission map follows |
| Gdt.SelectorsMatchTable | kernel/src/arch/x86_64/gdt.rs:152-185 | each selector picks a GDT slot inside the loaded limit holding the descriptor it is named after, and requests that descriptor's privilege level |
| Cpu.LeRoundTrip | kernel/src/arch/x86_64/cpu.rs:62-64 | a register's four little-endian bytes read back as the register's value |
| Cpu.Family | kernel/src/arch/x86_64/cpu.rs:71-75 | the family is the base family unless that is 0xF |
| Cpu.FamilyMatchesSdm | kernel/src/arch/x86_64/cpu.rs:71-75 | the family is the SDM's DisplayFamily (base plus extended family when the base is 0xF), less 256 exactly when the u8 sum wraps |
| Cpu.ModelMatchesSdm | kernel/src/arch/x86_64/cpu.rs:70-78 | the corrected model is the SDM's DisplayModel for every signature |
| Cpu.ModelAsWrittenDiffers | kernel/src/arch/x86_64/cpu.rs:73-78 | the model as written differs from the SDM's exactly for base family 0xF with a non-zero extended model and an extended family that is neither 0 nor 0xF7 |
| Cpu.ModelAsWrittenDropsExtendedModel | kernel/src/arch/x86_64/cpu.rs:73-78 | for signature 0x00870F10 (family 0x17) the model as written is 0x01 where the SDM gives 0x71 |
| Cpu.DecodeReport | kernel/src/arch/x86_64/cpu.rs:80-120 | when the extended feature leaf exists, decoding the leaves that report a set of features gives back exactly that set |
| Cpu.NoExtendedLeafNoNx | kernel/src/arch/x86_64/cpu.rs:96-100 | without the extended feature leaf, NX is never reported, and every other feature still decodes as reported |
| Cpu.ReportLeaf1 | kernel/src/arch/x86_64/cpu.rs:80-93 | the thirteen leaf-1 flags decode to what the leaf reports |
| Cpu.ReportEdx | kernel/src/arch/x86_64/cpu.rs:80-85 | SSE, SSE2, APIC, TSC, MSR and PAE are edx bits 25, 26, 9, 4, 5 and 6 of leaf 1 |
| Cpu.ReportEcx | kernel/src/arch/x86_64/cpu.rs:87-93 | SSE3, SSSE3, SSE4.1, SSE4.2, AVX, x2APIC and VMX are ecx bits 0, 9, 19, 20, 28, 21 and 5 of leaf 1 |
| Cpu.ReportOthers | kernel/src/arch/x86_64/cpu.rs:96-120 | AVX2 comes from leaf 7, SVM from the extended leaf, and NX only when the extended leaf exists |
| Cpu.ThreadsPerCore | kernel/src/arch/x86_64/cpu.rs:123-127 | threads per core is leaf 1's ebx bits 16-23, with 0 read as 1 |
| Cpu.Detect | kernel/src/arch/x86_64/cpu.rs:33-130 | the vendor is 12 bytes, the brand 48, the stepping below 16, one core and at least one thread per core; the family and model are the SDM's display values unless the base family is 0xF with a non-zero extended family, and then the model drops the extended model as the source's test does |
| Cpu.ModelAsWrittenAgrees | kernel/src/arch/x86_64/cpu.rs:70-78 | the family and the model as written are the SDM's display values unless the base family is 0xF with a non-zero extended family; with such a family (other than 0xF7) the model is just the base model |
| Cpu.VendorRoundTrip | kernel/src/arch/x86_64/cpu.rs:61-64 | the vendor bytes read back as leaf 0's ebx, edx and ecx, in that order |
| Cpu.GenuineIntel | kernel/src/arch/x86_64/cpu.rs:61-64 | an Intel processor's leaf-0 registers spell "GenuineIntel" |
| Cpu.LeAllChunk | kernel/src/arch/x86_64/cpu.rs:104-111 | the k-th four bytes of the concatenated registers are register k's little-endian bytes |
| Cpu.BrandRoundTrip | kernel/src/arch/x86_64/cpu.rs:102-112 | when the brand leaves exist each four brand bytes read back as the matching brand register; otherwise the brand is all zero |
| Cpu.LeadingSpaces | kernel/src/arch/x86_64/cpu.rs:140 | the count is the length of the run of whitespace the text starts with |
| Cpu.Kept | kernel/src/arch/x86_64/cpu.rs:140 | the kept prefix ends just before the run of whitespace the text ends with |
| Cpu.TrimmedSlice | kernel/src/arch/x86_64/cpu.rs:140 | trim returns the contiguous slice left after removing leading and trailing whitespace, and starts and ends with non-whitespace |
| Cpu.TrimUtf8 | kernel/src/arch/x86_64/cpu.rs:138-140 | trimming well-formed UTF-8 leaves well-formed UTF-8, so `trim` of a `&str` is again a `&str` |
| Cpu.VendorString | kernel/src/arch/x86_64/cpu.rs:132-134 | the vendor string is always valid UTF-8: the vendor bytes themselves exactly when `from_utf8` accepts them, and "Unknown" otherwise |
| Cpu.GenuineIntelString | kernel/src/arch/x86_64/cpu.rs:132-134 | Intel's vendor bytes are ASCII, so the vendor string is "GenuineIntel" itself, not the fallback |
| Cpu.BrandString | kernel/src/arch/x86_64/cpu.rs:136-141 | the brand string is always valid UTF-8, and it is "Unknown" whenever the bytes before the first NUL are not UTF-8 |
| Cpu.BrandStringAscii | kernel/src/arch/x86_64/cpu.rs:136-141 | an ASCII brand never takes the fallback: its string is the bytes before the first NUL, trimmed |
| Cpu.BrandStringInvalid | kernel/src/arch/x86_64/cpu.rs:138-140 | a brand starting with byte 0xFF, which UTF-8 never uses, reads as "Unknown" |
| Cpu.BrandStringNoNul | kernel/src/arch/x86_64/cpu.rs:136-141 | the string of a 48-byte brand, the fallback included, is no longer than the brand and contains no NUL, having been cut at the first one |
| Cpu.BrandStringTrimmed | kernel/src/arch/x86_64/cpu.rs:136-141 | the brand string, the "Unknown" fallback included, is already trimmed |
| Cpu.TrimNoop | kernel/src/arch/x86_64/cpu.rs:140 | trim leaves text that neither starts nor ends with whitespace unchanged |
| Pit.Init | kernel/src/arch/x86_64/pit.rs:21-34 | init records the frequency and writes the channel-0 mode byte 0x36 followed by two bytes to the channel-0 data port |
| Pit.DivisorMeans | kernel/src/arch/x86_64/pit.rs:26 | the divisor is the largest count whose multiple of the frequency stays within the 1193182 Hz base |
| Pit.InitProgramsDivisor | kernel/src/arch/x86_64/pit.rs:21-34 | the two data bytes reload the divisor modulo 65536: exactly the divisor for 19 Hz and up, a truncated one below 19 Hz |
| Pit.ByteSplit | kernel/src/arch/x86_64/pit.rs:32-33 | the low and high bytes written put back together give the divisor's low 16 bits |
| Pit.DivisorAtLeast19 | kernel/src/arch/x86_64/pit.rs:26 | from 19 Hz up the divisor fits in 16 bits |
| Pit.Tick | kernel/src/arch/x86_64/pit.rs:42-46 | a tick adds one to the count, wrapping to 0 at the u64 maximum, and keeps the frequency |
| Pit.UptimeMsMeans | kernel/src/arch/x86_64/pit.rs:54-58 | without overflow, the milliseconds are the whole milliseconds elapsed: ms*freq <= ticks*1000 < (ms+1)*freq |
| Pit.UptimesAgree | kernel/src/arch/x86_64/pit.rs:54-63 | without overflow, the uptime in milliseconds divided by 1000 is the uptime in seconds |
| Pit.UptimeAtDefaultRate | kernel/src/arch/x86_64/pit.rs:18 | at the default 1000 Hz one tick is one millisecond |
| Pit.TickAdvances | kernel/src/arch/x86_64/pit.rs:42-63 | short of overflow, a tick never moves either uptime back |
| Pit.ReadCountRoundTrip | kernel/src/arch/x86_64/pit.rs:74-82 | the count rebuilt from its latched low and high bytes is the count |
| Pit.SpeakerOn | kernel/src/arch/x86_64/pit.rs:85-96 | speaker_on writes mode 0xB6 and the divisor's two bytes to channel 2 |
| Pit.SpeakerBits | kernel/src/arch/x86_64/pit.rs:85-102 | speaker_on sets both speaker bits of port 0x61 and speaker_off clears them, each keeping the other six bits |
| Pit.SpeakerOnOff | kernel/src/arch/x86_64/pit.rs:85-102 | speaker_off undoes speaker_on on a silent port, and both are idempotent |
| Serial.ReadByte | kernel/src/arch/x86_64/serial.rs:69-80 | read_byte yields a byte exactly when line-status bit 0 is set, and then it is the data register's byte |
| Serial.WriteByte | kernel/src/arch/x86_64/serial.rs:58-66 | write_byte sends at the first poll whose line status shows bit 5 (transmitter empty), having seen it clear before, and waits forever if it never shows |
| Serial.ContractExpand | kernel/src/arch/x86_64/serial.rs:83-90 | dropping the carriage return before each line feed recovers the string written |
| Serial.ExpandLength | kernel/src/arch/x86_64/serial.rs:83-90 | the bytes sent are one more than the string's for every line feed |
| Serial.LineFeedsFollowReturns | kernel/src/arch/x86_64/serial.rs:83-90 | every line feed sent is immediately preceded by a carriage return |
| BootVga.New | bootloader/src/vga.rs:37-43 | a new writer has its cursor at the top left, white on black, over the screen as it was |
| BootVga.ColorByteParts | bootloader/src/vga.rs:116-118 | the attribute byte holds the foreground in its low nibble and the background in its high nibble |
| BootVga.ColorByteInjective | bootloader/src/vga.rs:116-118 | different colour pairs give different attribute bytes |
| BootVga.Clear | bootloader/src/vga.rs:45-54 | clear blanks every cell in the current colour and homes the cursor, keeping the colour |
| BootVga.WriteCharOk | bootloader/src/vga.rs:56-85 | after any character, from any row on the screen, the cursor is on the screen |
| BootVga.WriteStringOk | bootloader/src/vga.rs:87-91 | writing a string from a good writer leaves a good writer |
| BootVga.WritesOnlyOnScreen | bootloader/src/vga.rs:56-85 | a drawn character's cell index is on the screen, and a writer below the screen scrolls instead of drawing |
| BootVga.DrawsAtCursor | bootloader/src/vga.rs:56-85 | a drawn character lands at the cursor in the current colour; the cursor moves right, wraps to the next row, or scrolls at the bottom right |
| BootVga.LineControls | bootloader/src/vga.rs:56-85 | a newline moves to the start of the next row, scrolling at the bottom; a carriage return only homes the column |
| TextGrid.CellParts | kernel/src/drivers/console.rs:93-95 | a screen cell holds the colour in its high byte and the character in its low byte |
| TextGrid.IndexInside | kernel/src/drivers/console.rs:90 | a cursor position on the screen has a cell index on the screen that divides back into its row and column |
| TextGrid.Scroll | kernel/src/drivers/console.rs:113-137 | scroll's loops move every row up by one and fill the last row with blanks in the current colour |
| TextGrid.Clear | kernel/src/drivers/console.rs:140-151 | clear's loop makes every cell a blank in the current colour |
| TextGrid.ScrolledIsScroll | kernel/src/drivers/console.rs:113-137 | the scrolled screen as a value agrees with what the loops do |
| Console.ScrollUp | kernel/src/drivers/console.rs:113-137 | scrolling shifts the rows up, blanks the last row and puts the cursor on it, keeping the column and colour |
| Console.ClearScreen | kernel/src/drivers/console.rs:140-151 | clear blanks every cell in the current colour and homes the cursor |
| Console.SetColor | kernel/src/drivers/console.rs:154-156 | set_color changes only the colour, to the foreground's low nibble under the background's |
| Console.NextTabStop | kernel/src/drivers/console.rs:62-64 | the tab stop is the next multiple of eight, between one and eight columns on |
| Console.TabAsWritten | kernel/src/drivers/console.rs:62-64 | the tab as written moves to the next multiple of eight, and from column 72 on lands past the end of the row |
| Console.BackspaceAfterTabsLeavesScreen | kernel/src/drivers/console.rs:62-75 | as written, two tabs from column 79 reach column 88, and a backspace there blanks cell 2007 on the last row, past the screen, or a cell of the next row elsewhere |
| Console.Tab | kernel/src/drivers/console.rs:62-64 | the corrected tab moves right from any column on the screen and never past the end of the row |
| Console.TabStops | kernel/src/drivers/console.rs:62-64 | the corrected tab is the source's tab stop whenever that is on the screen, and otherwise stops at the end of the row |
| Console.WriteByte | kernel/src/drivers/console.rs:50-104 | after any byte the console is good: the cursor row is on the screen and the column at most the width |
| Console.WriteBytes | kernel/src/drivers/console.rs:107-111 | writing a string keeps the console good |
| Console.LineControls | kernel/src/drivers/console.rs:55-61 | a newline moves to the start of the next row, scrolling at the bottom; a carriage return only homes the column |
| Console.BackspaceErases | kernel/src/drivers/console.rs:65-75 | backspace at column 0 does nothing; otherwise it steps back one column and blanks that cell of the same row; bytes above 127 are skipped |
| Console.PutDraws | kernel/src/drivers/console.rs:76-98 | a printable byte wraps first if the row is full, scrolls if needed, lands at the cursor in the current colour, and advances the column |
| Keyboard.Process | kernel/src/drivers/keyboard.rs:189-220 | an event is a press exactly when the scancode's top bit is clear; it carries the raw scancode and the modifiers as updated by this key |
| Keyboard.MakeBreakSameKey | kernel/src/drivers/keyboard.rs:189-197 | a key's make code and its break code (plus 0x80) name the same key, one pressed and one released |
| Keyboard.HeldModifiers | kernel/src/drivers/keyboard.rs:199-205 | shift, ctrl and alt are set exactly while either of their keys is down, and nothing else changes |
| Keyboard.ToggledModifiers | kernel/src/drivers/keyboard.rs:206-209 | caps lock and num lock flip on each press and ignore releases; other keys leave the modifiers alone |
| Keyboard.ExtendedArrows | kernel/src/drivers/keyboard.rs:223-330 | after the 0xE0 prefix codes 0x48, 0x50, 0x4B and 0x4D are the arrows; unmapped codes give Unknown |
| Keyboard.TableKeysWellFormed | kernel/src/drivers/keyboard.rs:223-330 | every letter key the tables give is an upper-case letter and every digit key a digit |
| Keyboard.ToChar | kernel/src/drivers/keyboard.rs:336-422 | a character comes out exactly for presses of keys that have one |
| Keyboard.LetterCase | kernel/src/drivers/keyboard.rs:341-369 | a letter is upper case exactly when shift and caps lock differ, and is always the key's letter |
| Keyboard.DigitsUseShift | kernel/src/drivers/keyboard.rs:371-416 | caps lock and num lock never affect digits; the digit row gives its digit exactly without shift; the keypad ignores every modifier |
| Keyboard.HandleInterrupt | kernel/src/drivers/keyboard.rs:162-186 | the queue never grows past 256 events; the 0xE0 prefix only sets the extended flag, and any other byte clears it |
| Keyboard.PrefixConsumedOnce | kernel/src/drivers/keyboard.rs:162-186 | after 0xE0 the next byte is decoded as extended and the one after it as plain, each queued in order |
| Keyboard.FullBufferDrops | kernel/src/drivers/keyboard.rs:180-185 | with 256 events queued a new event is dropped, but the modifiers still track it |
| Keyboard.ReadKey | kernel/src/drivers/keyboard.rs:425-427 | read_key takes the oldest event, or nothing from an empty queue |
| Keyboard.FirstChar | kernel/src/drivers/keyboard.rs:439-448 | the position found is the first event that gives a character, all before it giving none |
| Keyboard.GetChar | kernel/src/drivers/keyboard.rs:439-448 | get_char consumes events up to and including the first that gives a character and returns that character, or empties the queue and returns nothing |
| Mouse.InitialOk | kernel/src/drivers/mouse.rs:28-43 | the initial state is good, with the pointer at the centre of the 800x600 screen |
| Mouse.SetScreenSize | kernel/src/drivers/mouse.rs:45-50 | set_screen_size stores the size and centres the pointer, rounding down, changing nothing else |
| Mouse.SetScreenSizeOk | kernel/src/drivers/mouse.rs:45-50 | a non-empty screen size keeps the state good |
| Mouse.EnableWheel | kernel/src/drivers/mouse.rs:52-54 | enabling the wheel changes only the wheel flag |
| Mouse.AsI8 | kernel/src/drivers/mouse.rs:102 | a byte read as i8 is in -128..127 and equal to the byte or the byte less 256 |
| Mouse.ExtendIsNineBit | kernel/src/drivers/mouse.rs:88-98 | the sign extension by OR-ing !0xFF yields the byte less 256 when the sign flag is set, a nine-bit value |
| Mouse.ClampInside | kernel/src/drivers/mouse.rs:111-115 | the clamp keeps on-screen coordinates and sends off-screen ones to the nearest edge |
| Mouse.ProcessByte | kernel/src/drivers/mouse.rs:57-117 | the byte buffer stays four bytes and the cycle below four |
| Mouse.UnsyncedByteDropped | kernel/src/drivers/mouse.rs:60-65 | a first byte without bit 3 set is skipped, changing nothing |
| Mouse.CycleCounts | kernel/src/drivers/mouse.rs:67-73 | an accepted byte is stored at the cycle position; the cycle advances with the pointer unmoved, or resets to 0 on the packet's last byte |
| Mouse.OverflowIgnored | kernel/src/drivers/mouse.rs:76-81 | a packet with an overflow bit moves nothing and changes no button or wheel state |
| Mouse.PacketButtons | kernel/src/drivers/mouse.rs:83-105 | a good packet sets the buttons from flag bits 0-2 and the wheel delta from the fourth byte when the wheel is on |
| Mouse.PacketMoves | kernel/src/drivers/mouse.rs:88-115 | a good packet moves the pointer by the nine-bit deltas, with y inverted, clamped to the screen, and unclamped when it stays on the screen |
| Mouse.ProcessByteOk | kernel/src/drivers/mouse.rs:57-117 | any byte keeps a good state good: the pointer stays on the screen |
| Mouse.TakeScroll | kernel/src/drivers/mouse.rs:216-221 | get_scroll_delta returns the delta and clears it, changing nothing else |
| Mouse.TakeScrollTwice | kernel/src/drivers/mouse.rs:216-221 | reading the wheel twice gives 0 the second time and changes nothing more |
| Storage.Register | kernel/src/drivers/storage/mod.rs:38-45 | registering a device appends it, so the list grows by exactly one |
| Storage.GetDevice | kernel/src/drivers/storage/mod.rs:48-52 | a lookup succeeds exactly for an index below the device count, and yields the device registered at that index |
| Storage.RegisterDetected | kernel/src/drivers/storage/mod.rs:64-83 | registering the detected ATA slots keeps the devices already there as a prefix and adds at most one device per slot |
| Storage.RegisterThenGet | kernel/src/drivers/storage/mod.rs:38-52 | a device just registered is found at the old count, earlier indices still find what they found, and indices past the new end find nothing |
| Storage.ParseMbrEntry | kernel/src/drivers/storage/mod.rs:85-96 | a 16-byte partition record decodes to an entry with three-byte CHS fields |
| Storage.EncodeMbrEntry | kernel/src/drivers/storage/mod.rs:85-96 | a well-formed entry lays out as exactly sixteen bytes |
| Storage.MbrEntryRoundTrip | kernel/src/drivers/storage/mod.rs:85-96 | decoding the bytes of an encoded partition entry gives back the entry |
| Storage.ReadMbr | kernel/src/drivers/storage/mod.rs:108-135 | read_mbr succeeds exactly when sector 0 reads and ends in 0x55 0xAA, then yields the four records at bytes 446 + 16i; a failed read's error is passed on |
| Storage.ImageEntry | kernel/src/drivers/storage/mod.rs:127-131 | in a laid-out boot sector, entry i occupies bytes 446 + 16i to 462 + 16i |
| Storage.ImageSignature | kernel/src/drivers/storage/mod.rs:113-114 | a laid-out boot sector carries the signature bytes the reader checks |
| Storage.MbrRoundTrip | kernel/src/drivers/storage/mod.rs:108-135 | reading back a boot sector laid out from four entries returns those four entries |
| Storage.MbrNeedsSignature | kernel/src/drivers/storage/mod.rs:113-115 | a sector without 0xAA at byte 511 is refused with "Invalid MBR signature" whatever its entries hold |
| Storage.ParseGptHeader | kernel/src/drivers/storage/mod.rs:138-160 | the header decodes to an eight-byte signature and a sixteen-byte disk GUID |
| Storage.ParseGptEntry | kernel/src/drivers/storage/mod.rs:163-178 | a 128-byte record decodes to a sixteen-byte type GUID and a 36-unit name |
| Storage.ValidOnly | kernel/src/drivers/storage/mod.rs:176-178 | filtering the entries in use keeps no more than were given and only entries whose type GUID is not all zero |
| Storage.ValidOnlySnoc | kernel/src/drivers/storage/mod.rs:215-217 | adding one more entry adds it to the filtered list exactly when it is in use, at the end |
| Storage.ValidOnlyStep | kernel/src/drivers/storage/mod.rs:215-217 | the filtered prefix of k + 1 entries extends that of k entries by entry k exactly when it is in use |
| Storage.SectorsNeeded | kernel/src/drivers/storage/mod.rs:197-198 | the rounded-up quotient gives enough sectors for all declared entries and no sector more than needed |
| Storage.SlotInside | kernel/src/drivers/storage/mod.rs:205-211 | with at least 128-byte entries and no more slots than fit, every slot's 128 bytes lie inside the 512-byte sector |
| Storage.SectorSlots | kernel/src/drivers/storage/mod.rs:205-211 | one sector yields exactly entries-per-sector slots |
| Storage.EntryList | kernel/src/drivers/storage/mod.rs:202-219 | the sectors read yield per slots each, in sector order |
| Storage.EntryIndex | kernel/src/drivers/storage/mod.rs:202-211 | slot i of sector s is entry s times per plus i of the table |
| Storage.CollectEntries | kernel/src/drivers/storage/mod.rs:202-219 | the collection loop, stopping once n entries in use are kept, returns the first n entries in use among all the slots read, in slot order |
| Storage.CollectAsWritten | kernel/src/drivers/storage/mod.rs:205-217 | the loop as written keeps at most n entries, each in use |
| Storage.CollectAsWrittenTakes | kernel/src/drivers/storage/mod.rs:205-217 | the loop as written keeps the entries already kept followed by the first entries in use among the slots still to visit, up to n in all |
| Storage.CollectFixed | kernel/src/drivers/storage/mod.rs:202-219 | the corrected loop keeps at most n entries, each in use |
| Storage.CollectFixedStaysInTable | kernel/src/drivers/storage/mod.rs:202-219 | the corrected loop depends only on the n declared slots, and when all of them are in use it agrees with the loop as written |
| Storage.CollectAsWrittenOverreads | kernel/src/drivers/storage/mod.rs:206-208 | because the loop stops on the count of entries kept rather than slots visited, a table with an unused slot declared to hold two entries returns two entries where the first two slots hold one |
| Storage.EntrySizeUnchecked | kernel/src/drivers/storage/mod.rs:196-211 | an unchecked entry size of 64 gives eight slots whose last 128-byte read runs past the sector, and a size over 512 gives no slots at all |
| Storage.ReadSectors | kernel/src/drivers/storage/mod.rs:202-203 | reading count sectors from lba succeeds when every read does, and then returns each sector as read, in order |
| Storage.SlotsPer | kernel/src/drivers/storage/mod.rs:196 | for entry sizes from 128 to 512 bytes at least one slot fits in a sector and the slots together fit |
| Storage.ReadTable | kernel/src/drivers/storage/mod.rs:196-219 | a table read, collecting as the loop as written does, returns at most the declared number of entries, each in use |
| Storage.ReadGptResult | kernel/src/drivers/storage/mod.rs:182-220 | read_gpt refuses a header not signed "EFI PART", and on success returns at most the header's entry count of entries, each in use |
| Storage.ReadTableReads | kernel/src/drivers/storage/mod.rs:196-219 | when every read succeeds, the table is the first n entries in use among all the slots of just enough sectors from the table's LBA, which may lie past the declared table |
| Storage.ReadGptTable | kernel/src/drivers/storage/mod.rs:182-220 | a signed header with a sane entry size hands its table LBA, entry count and entry size to the table read, which collects as the source's loop does |
| Storage.ReadGpt | kernel/src/drivers/storage/mod.rs:182-220 | a failed header read is passed on, a header not signed "EFI PART" is refused, and a success means a signed header and at most its entry count of entries, each in use |
| Ata.Zeros | kernel/src/drivers/storage/ata.rs:58-69 | a zero-filled field has the requested length and only zero bytes |
| Ata.Empty | kernel/src/drivers/storage/ata.rs:58-69 | an empty slot is not marked present |
| Ata.WordHalves | kernel/src/drivers/storage/ata.rs:277-281 | splitting a word into its low and high byte and joining them as write_sectors does gives back the word, and the other way round |
| Ata.Unpack | kernel/src/drivers/storage/ata.rs:277-281 | the bytes stored for a run of words are two per word |
| Ata.Pack | kernel/src/drivers/storage/ata.rs:345-349 | the words sent for a run of bytes are one per two bytes |
| Ata.UnpackAppend | kernel/src/drivers/storage/ata.rs:277-281 | the bytes of two runs of words are the bytes of each, concatenated |
| Ata.PackAppend | kernel/src/drivers/storage/ata.rs:345-349 | the words of two even-length byte runs are the words of each, concatenated |
| Ata.UnpackPack | kernel/src/drivers/storage/ata.rs:277-281 | bytes sent as words and stored back as bytes come back unchanged |
| Ata.PackUnpack | kernel/src/drivers/storage/ata.rs:345-349 | words stored as bytes and sent back as words come back unchanged |
| Ata.TextBytes | kernel/src/drivers/storage/ata.rs:149-179 | the identify text keeps no NUL byte, and the serial's no space either |
| Ata.TextAppend | kernel/src/drivers/storage/ata.rs:149-179 | the text of two runs of words is the text of each, concatenated |
| Ata.Field | kernel/src/drivers/storage/ata.rs:149-179 | a string field has exactly its fixed size |
| Ata.ExtractField | kernel/src/drivers/storage/ata.rs:149-179 | the extraction loop fills the field with the first text bytes up to its size and leaves the rest zero |
| Ata.FilledIsField | kernel/src/drivers/storage/ata.rs:149-179 | the loop's state after all words is the field |
| Ata.UntilNulPadded | kernel/src/drivers/storage/ata.rs:213-222 | text without NULs padded with zeros reads back as that text |
| Ata.Name | kernel/src/drivers/storage/ata.rs:194-202 | a device name fills the eight-byte name field |
| Ata.Identify | kernel/src/drivers/storage/ata.rs:136-205 | a detected device is present and keeps the channel and drive it was probed at |
| Ata.IdentifyStrings | kernel/src/drivers/storage/ata.rs:149-179 | the model reads back as all non-NUL bytes of words 27 to 46, high byte first, and the serial as all bytes of words 10 to 19 other than NUL and space |
| Ata.FieldText | kernel/src/drivers/storage/ata.rs:149-179 | a field with room for every text byte reads back as the text |
| Ata.SectorCountWords | kernel/src/drivers/storage/ata.rs:181-192 | the sector count's 16-bit words are words 100 to 103 for an LBA48 drive, and words 60 and 61 otherwise, below 2^32 |
| Ata.NameOfIdentify | kernel/src/drivers/storage/ata.rs:194-202 | the drive at channel c, position d is named hd followed by letter a + 2c + d |
| Ata.NamesDistinct | kernel/src/drivers/storage/ata.rs:194-202 | the four drive positions get four different names |
| Ata.CommandWrites | kernel/src/drivers/storage/ata.rs:236-256 | issuing a read or write command always ends with a write to the command register |
| Ata.Lba28Address | kernel/src/drivers/storage/ata.rs:249-256 | in 28-bit mode the drive register carries the select bits, the count goes out once, the four address parts rebuild the low 28 bits of the LBA, and the command is the 28-bit read or write |
| Ata.Rebuild28 | kernel/src/drivers/storage/ata.rs:249-256 | the bytes and nibble sent in 28-bit mode rebuild the low 28 bits of the LBA |
| Ata.Lba48Address | kernel/src/drivers/storage/ata.rs:236-248 | in 48-bit mode the high count byte is zero, the six address bytes rebuild the low 48 bits of the LBA, and the command is the extended read or write |
| Ata.Rebuild48 | kernel/src/drivers/storage/ata.rs:236-248 | the six bytes sent in 48-bit mode rebuild the low 48 bits of the LBA |
| Ata.Lba28Truncates | kernel/src/drivers/storage/ata.rs:236-256 | on a drive without LBA48, sector 2^28 is addressed exactly as sector 0 |
| Ata.WaitDrqMeans | kernel/src/drivers/storage/ata.rs:258-273 | the DRQ wait succeeds exactly when some poll within the budget is the first to leave the quiet state and shows DRQ without ERR, and times out exactly when every poll in the budget is quiet |
| Ata.ReadyCount | kernel/src/drivers/storage/ata.rs:258-282 | the sectors that get their data are a prefix of the request, and the sector that ends it early failed its wait |
| Ata.ReadyFrom | kernel/src/drivers/storage/ata.rs:258-282 | counting on from a prefix of ready sectors keeps the prefix ready and stops only at a failed wait |
| Ata.ReadyCountIs | kernel/src/drivers/storage/ata.rs:258-282 | the ready prefix is the only count with those two properties |
| Ata.StoreSector | kernel/src/drivers/storage/ata.rs:275-281 | the copy loop stores the sector's 256 words as 512 bytes, low byte first, at the sector's offset and changes nothing else |
| Ata.SendSector | kernel/src/drivers/storage/ata.rs:343-349 | the send loop sends the sector's 512 bytes as 256 words, low byte first |
| Ata.WriteStep | kernel/src/drivers/storage/ata.rs:326-350 | the words sent for s + 1 sectors are those for s sectors followed by those of sector s |
| Ata.ReadSectors | kernel/src/drivers/storage/ata.rs:226-285 | read_sectors refuses a buffer shorter than count sectors with "Buffer too small"; otherwise the ready prefix of sectors is stored in order and the rest of the buffer kept, and it fails with "Read error" or "Read timeout" exactly when a sector's wait fails |
| Ata.WriteSectors | kernel/src/drivers/storage/ata.rs:294-356 | write_sectors refuses a short buffer; otherwise it sends the words of the ready prefix of sectors and fails with "Write error" or "Write timeout" exactly when a sector's wait fails |
| Ata.BlockRead | kernel/src/drivers/storage/ata.rs:387-392 | the block read refuses more than 255 sectors with "Count too large" and, when every wait succeeds, fills the first count sectors of the buffer from the drive |
| Ata.BlockWrite | kernel/src/drivers/storage/ata.rs:394-399 | the block write refuses more than 255 sectors and, when every wait succeeds, sends the first count sectors of the buffer |
| Ata.WriteThenRead | kernel/src/drivers/storage/ata.rs:277-281 | the words a successful write sends, when read back, are the bytes that were written |
| Ata.Found | kernel/src/drivers/storage/ata.rs:419-436 | the detected devices are no more than the probes |
| Ata.FoundAppend | kernel/src/drivers/storage/ata.rs:419-436 | the devices found by two runs of probes are those of each, in order |
| Ata.ScanDevices | kernel/src/drivers/storage/ata.rs:419-436 | the scan fills the four-slot table with the detected devices in probe order and leaves the other slots empty |
| Ata.GetDevice | kernel/src/drivers/storage/ata.rs:438-456 | a lookup succeeds only for an index below four, and yields that slot's device |
| Ata.GetDeviceFinds | kernel/src/drivers/storage/ata.rs:419-456 | after a scan, index i finds a device exactly when at least i + 1 devices were detected, and then finds the i-th detected one |
| Ata.FoundPresent | kernel/src/drivers/storage/ata.rs:419-436 | every detected device in the table is marked present |
| CottonFs.Layout | kernel/src/fs/cottonfs.rs:35-71 | the on-disk regions follow each other without gap: superblock, inode bitmap, data bitmap, 64 blocks of inode table holding 2048 inodes of 32 per block, then data; the inode bitmap has a bit for every inode and the data bitmap describes 1,048,576 blocks |
| CottonFs.NewSuperblock | kernel/src/fs/cottonfs.rs:94-110 | a new superblock carries the magic, version 2, 4096-byte blocks, the disk's block count, 2048 inodes, root inode 1 and a mount count of one |
| CottonFs.Mount | kernel/src/fs/cottonfs.rs:250-300 | mounting formats exactly when the magic or version is wrong; otherwise the superblock and bitmaps on disk are used as read, and a format sizes the filesystem to the device |
| CottonFs.FormatConsistent | kernel/src/fs/cottonfs.rs:94-110 | a fresh format is consistent: only the root inode is allocated, 2047 inodes are free and every data block past the metadata is free |
| CottonFs.AllocInode | kernel/src/fs/cottonfs.rs:392-419 | alloc_inode fails with "No free inodes" exactly when the free count is zero or every inode from 1 up is marked, changing nothing; otherwise it returns the lowest unmarked inode from 1, marks it and lowers the free count by one |
| CottonFs.AllocInodeConsistent | kernel/src/fs/cottonfs.rs:392-419 | allocating an inode keeps the free count equal to the unmarked inodes, and the inode returned is marked |
| CottonFs.AllocInodeFailsWhenFull | kernel/src/fs/cottonfs.rs:392-419 | on a consistent filesystem the free count never reaches zero, and allocation fails exactly when every inode from 1 up is marked, the root being the one left over in the count |
| CottonFs.FreeInodeAsWritten | kernel/src/fs/cottonfs.rs:422-445 | free_inode refuses the root; any other inode is cleared and the free count raised by one, whether or not it was in use |
| CottonFs.FreeInodeAsWrittenInflates | kernel/src/fs/cottonfs.rs:422-445 | freeing unused inode 2 right after a format reports all 2048 inodes free while the root is still allocated |
| CottonFs.FreeUnusedInodeBreaks | kernel/src/fs/cottonfs.rs:422-445 | on any consistent filesystem, freeing an inode whose bit is clear breaks the free count |
| CottonFs.FreeInode | kernel/src/fs/cottonfs.rs:422-445 | the corrected free refuses the root, clears any other inode, and leaves the filesystem unchanged when the inode was already free |
| CottonFs.FreeInodeConsistent | kernel/src/fs/cottonfs.rs:422-445 | the corrected free keeps the free count equal to the unmarked inodes |
| CottonFs.AllocFreeInode | kernel/src/fs/cottonfs.rs:392-445 | freeing the inode just allocated restores the filesystem exactly |
| CottonFs.AllocBlockAsWritten | kernel/src/fs/cottonfs.rs:448-473 | alloc_block returns block 128 + i for the first clear bit i below the disk's data block count, marks it and lowers the free count |
| CottonFs.AllocBlockAsWrittenRepeats | kernel/src/fs/cottonfs.rs:448-473 | on a disk two blocks larger than the bitmap covers, with every covered block in use, the filesystem is consistent yet two allocations in a row return the same block |
| CottonFs.AllocBlock | kernel/src/fs/cottonfs.rs:448-473 | the corrected alloc_block fails exactly when the free count is zero or every block both the disk and the bitmap cover is marked; otherwise it returns the lowest such clear block, marks it and lowers the free count |
| CottonFs.AllocBlockConsistent | kernel/src/fs/cottonfs.rs:448-473 | allocating a block keeps the free count equal to the unmarked data blocks, and the block returned is marked |
| CottonFs.AllocBlockTwiceDistinct | kernel/src/fs/cottonfs.rs:448-473 | two allocations in a row never return the same block |
| CottonFs.FreeBlock | kernel/src/fs/cottonfs.rs:476-499 | free_block refuses blocks below 128 with "Invalid block number", leaves an already free block alone, and otherwise clears its bit; the inode bitmap is untouched |
| CottonFs.FreeBlockConsistent | kernel/src/fs/cottonfs.rs:476-499 | freeing any block keeps the free count equal to the unmarked data blocks |
| CottonFs.AllocFreeBlock | kernel/src/fs/cottonfs.rs:448-499 | freeing the block just allocated restores the filesystem exactly |
| CottonFs.SetDataBitConsistent | kernel/src/fs/cottonfs.rs:458-461 | marking a clear data block the disk has, while lowering the free count, keeps the filesystem consistent |
| CottonFs.ClearDataBitConsistent | kernel/src/fs/cottonfs.rs:490-492 | clearing a marked data block while raising the free count keeps the filesystem consistent, and the raise cannot wrap |
| CottonFs.InodeLocationSlots | kernel/src/fs/cottonfs.rs:502-533 | every inode has a 128-byte aligned slot inside one block, the slot is in the inode table exactly for inodes below 2048, and different inodes have different slots |
| CottonFs.GetStats | kernel/src/fs/cottonfs.rs:579-588 | the statistics report the blocks past the metadata area as the total |
| CottonFs.StorageInfoAddsUp | kernel/src/fs/cottonfs.rs:591-604 | on a consistent filesystem small enough that no product wraps, the filesystem's storage info and the one rebuilt from statfs agree, used and free bytes add up to the total, used and free inodes to the inode count, and the usage is at most 100 percent |
| FileData.Read | kernel/src/fs/mod.rs:475-492 | a read at or past the end returns 0 and leaves the buffer alone; otherwise it returns the smaller of the buffer's length and the bytes left, copies exactly those bytes of the file from the offset into the buffer's front, and leaves the rest of the buffer as it was |
| FileData.Write | kernel/src/fs/mod.rs:494-509 | after a write the file is as long as the larger of its old length and the write's end, holds the buffer at the offset, keeps every other old byte, and reads zero in any gap before the offset |
| FileData.Truncate | kernel/src/fs/mod.rs:624-634 | truncation to a size keeps the old bytes below the size and zero-fills the rest up to it |
| FileData.ReadAfterWrite | kernel/src/fs/mod.rs:475-509 | a non-empty write read back at the same offset with a buffer of the same length returns the whole buffer written |
| FileData.ReadAdjacent | kernel/src/fs/mod.rs:475-492 | two reads of adjacent windows inside the file return what one read of both returns, split at the seam |
| FileData.ReadOutsideWrite | kernel/src/fs/mod.rs:475-509 | a write leaves every window of the old contents outside its range reading as before |
| FileData.TruncateIdempotent | kernel/src/fs/mod.rs:624-634 | truncating twice to the same size is truncating once, and truncating to the current length changes nothing |
| FileData.ReadAll | kernel/src/fs/mod.rs:332-344 | read_file's whole-file read of a buffer sized to the file returns the contents exactly |
| FileData.ReplaceContents | kernel/src/fs/mod.rs:347-361 | write_file on an existing file, a truncation to zero followed by a write at zero, leaves exactly the new contents whatever the old ones were |
| FileData.BlocksFor | kernel/src/fs/cottonfs.rs:870 | the rounded-up block count covers the size and has no block to spare |
| CottonFiles.NewFileInode | kernel/src/fs/cottonfs.rs:134-151 | a new file inode is a regular file with mode 0o644, one link, size zero and no blocks |
| CottonFiles.NewDirInode | kernel/src/fs/cottonfs.rs:153-170 | a new directory inode is a directory with mode 0o755, two links, size zero and no blocks |
| CottonFiles.TypeFromCode | kernel/src/fs/cottonfs.rs:176-183 | type code 2 reads as a directory and 3 as a symlink; every other code, 0 and 1 included, reads as a regular file |
| CottonFiles.CodeFromType | kernel/src/fs/cottonfs.rs:198-206 | the stored code is at most 3 and is 0 exactly for types other than file, directory and symlink |
| CottonFiles.TypeCodeRoundTrip | kernel/src/fs/cottonfs.rs:176-206 | the three stored kinds survive a round trip through their code, other kinds come back as regular files, and codes 1 to 3 survive the other way round |
| CottonFiles.WriteBlock | kernel/src/fs/cottonfs.rs:1298-1304 | a block written reads back as written and every other block is unchanged |
| CottonFiles.ReadDiskInode | kernel/src/fs/cottonfs.rs:502-515 | an inode reads back as last written, and a slot never written reads as a free inode |
| CottonFiles.LoadInode | kernel/src/fs/cottonfs.rs:330-364 | loading fails with "Inode is not allocated" exactly for a free slot; otherwise the node carries the inode number, the disk inode, the type its code gives and nothing cached |
| CottonFiles.Chunk | kernel/src/fs/cottonfs.rs:883-889 | block i of the contents as written is a full block that starts with the contents' bytes at i times 4096 |
| CottonFiles.WriteBlocks | kernel/src/fs/cottonfs.rs:879-890 | the write loop only fills pointers that were zero in its range, leaves the others alone, and fails only with "No free blocks" |
| CottonFiles.WriteBlocksSound | kernel/src/fs/cottonfs.rs:879-890 | the write loop keeps the counters consistent and the pointers owned, on success every block in its range holds the matching chunk, and blocks it did not point at are untouched |
| CottonFiles.DistinctPointers | kernel/src/fs/cottonfs.rs:879-890 | two slots of an inode's pointer array never share a block |
| CottonFiles.FreeExtra | kernel/src/fs/cottonfs.rs:893-898 | freeing the tail keeps the pointers before the new block count and zeroes every one after it |
| CottonFiles.FreeExtraSound | kernel/src/fs/cottonfs.rs:893-898 | freeing the tail keeps the counters consistent and the remaining pointers owned |
| CottonFiles.LoadFileData | kernel/src/fs/cottonfs.rs:832-859 | the loaded contents are no longer than the recorded size nor than twelve blocks |
| CottonFiles.LoadBound | kernel/src/fs/cottonfs.rs:844-856 | loading from pointer i on yields at most the bytes of the blocks left |
| CottonFiles.LoadChunks | kernel/src/fs/cottonfs.rs:844-856 | when each pointer from i on that the contents reach holds its chunk, loading from i gives back the contents from that block on, cut to twelve blocks |
| CottonFiles.SaveFileData | kernel/src/fs/cottonfs.rs:862-913 | save_file_data refuses non-files and files with nothing loaded; on success the inode records the contents' length and block count, no pointer past that count, is written to the table and is clean; on failure the table and dirty flag are unchanged |
| CottonFiles.SaveLoadRoundTrip | kernel/src/fs/cottonfs.rs:832-913 | saving keeps the filesystem consistent and the pointers owned, and a successful save loads back as the saved contents cut to twelve blocks |
| CottonFiles.Contents | kernel/src/fs/cottonfs.rs:944-957 | a file's contents are the cache when there is one, and otherwise what loading reads, at most twelve blocks |
| CottonFiles.Read | kernel/src/fs/cottonfs.rs:944-971 | read refuses non-files with "Not a regular file", otherwise caches the contents and answers as the byte-level read does |
| CottonFiles.Write | kernel/src/fs/cottonfs.rs:973-1007 | write refuses non-files; otherwise the cache takes the bytes as the byte-level write places them, and the answer is the buffer's length with the node clean, or "No free blocks" with it still dirty |
| CottonFiles.Truncate | kernel/src/fs/cottonfs.rs:1246-1270 | truncate refuses non-files; otherwise the cache is resized as the byte-level truncation does, and a successful save records the new size and leaves the node clean |
| CottonFiles.Stat | kernel/src/fs/cottonfs.rs:924-942 | stat reports device 1, the node's number and type, the inode's size, blocks and links, 4096-byte blocks and the mode cut to the permission bits |
| CottonFiles.WriteThenRead | kernel/src/fs/cottonfs.rs:944-1007 | a non-empty write read straight back at the same offset returns the bytes written |
| CottonFiles.WritePersists | kernel/src/fs/cottonfs.rs:973-1007 | a write keeps the filesystem consistent, and a successful one is on disk: reloading gives the cached contents up to twelve blocks and stat reports their length |
| CottonFiles.TruncatePersists | kernel/src/fs/cottonfs.rs:1246-1270 | a truncation keeps the filesystem consistent, and a successful one is on disk with stat reporting the new size |
| DirRecords.NewRecord | kernel/src/fs/cottonfs.rs:198-214 | a new record holds the inode number and type code, a name length of the name's length capped at 60, the name's first bytes and zeros after them |
| DirRecords.RecordName | kernel/src/fs/cottonfs.rs:217-220 | a record's name is its first name-length bytes |
| DirRecords.NameRoundTrip | kernel/src/fs/cottonfs.rs:198-220 | the name read from a new record is the name given cut to 60 bytes, and exactly the name when it fits |
| DirRecords.EncodeRecord | kernel/src/fs/cottonfs.rs:791-797 | a record serializes to exactly 72 bytes |
| DirRecords.DecodeRecord | kernel/src/fs/cottonfs.rs:761-768 | 72 bytes decode to a record with a 60-byte name field |
| DirRecords.DecodeEncode | kernel/src/fs/cottonfs.rs:758-797 | decoding a serialized record gives back the record |
| DirRecords.DecodeZeros | kernel/src/fs/cottonfs.rs:222-224 | 72 zero bytes decode to an empty record |
| DirRecords.Serialize | kernel/src/fs/cottonfs.rs:786-797 | the serialized entries are 72 bytes per entry |
| DirRecords.Occupied | kernel/src/fs/cottonfs.rs:769-771 | the kept records are no more than those parsed and none is empty |
| DirRecords.ParseSerialize | kernel/src/fs/cottonfs.rs:758-797 | parsing serialized entries followed by anything gives the entries, then what the rest parses to |
| DirRecords.ParseZeros | kernel/src/fs/cottonfs.rs:758-770 | zero padding parses to empty records only |
| DirRecords.OccupiedAppend | kernel/src/fs/cottonfs.rs:769-771 | keeping the non-empty records distributes over concatenation |
| DirRecords.SerializeRoundTrip | kernel/src/fs/cottonfs.rs:738-797 | entries with no empty record, serialized and zero-padded to whole blocks, load back as the same entries |
| CottonDirs.LoadDirEntries | kernel/src/fs/cottonfs.rs:738-776 | the loaded entries hold no empty record |
| CottonDirs.Entries | kernel/src/fs/cottonfs.rs:1113-1120 | a directory's entries are the cache when there is one |
| CottonDirs.Find | kernel/src/fs/cottonfs.rs:1229-1230 | the search finds the first entry with the name, and finds none exactly when no entry has it |
| CottonDirs.SaveDirEntriesAsWritten | kernel/src/fs/cottonfs.rs:779-829 | save_dir_entries records the serialized length and block count but keeps every pointer past the new block count as it was |
| CottonDirs.SaveDirAsWrittenResurrects | kernel/src/fs/cottonfs.rs:779-829 | removing a directory's last entry saves size zero, yet the block with the old record is still pointed at, so reloading brings the removed entry back |
| CottonDirs.SaveDirAsWrittenSound | kernel/src/fs/cottonfs.rs:779-829 | the save as written still keeps the counters consistent and the pointers owned |
| CottonDirs.SaveDirEntries | kernel/src/fs/cottonfs.rs:779-829 | the corrected save refuses non-directories and unloaded directories; on success the inode records the serialized length and block count, points at no block past it, is written to the table and is clean; a failure is "No free blocks" and leaves the table alone |
| CottonDirs.SaveDirRoundTrip | kernel/src/fs/cottonfs.rs:738-829 | the corrected save keeps the filesystem consistent and the pointers owned, and a successful save loads back as exactly the saved entries |
| CottonDirs.Padded | kernel/src/fs/cottonfs.rs:802-815 | padding to whole blocks keeps the data as a prefix and yields exactly the blocks' bytes |
| CottonDirs.DirBytesPadded | kernel/src/fs/cottonfs.rs:746-756 | when the pointers hold the chunks of the data up to the first zero pointer, the bytes read are the data padded to whole blocks |
| CottonDirs.ListAll | kernel/src/fs/cottonfs.rs:1041-1050 | every record is listed, in order, one listing per record |
| CottonDirs.Readdir | kernel/src/fs/cottonfs.rs:1009-1056 | readdir refuses non-directories; otherwise it lists "." and ".." (both carrying the directory's own inode number) followed by every entry in order |
| CottonDirs.Lookup | kernel/src/fs/cottonfs.rs:1058-1102 | lookup refuses non-directories, answers none for "." and "..", and otherwise answers none exactly when no entry has the name, or the node loaded for the first entry that has it |
| CottonDirs.AddNew | kernel/src/fs/cottonfs.rs:1134-1153 | adding a new name fails with "No free inodes" when allocation fails; otherwise the entry for the allocated inode is appended, the new inode written, and on success the node returned loads from the table as that fresh file or directory |
| CottonDirs.AddEntry | kernel/src/fs/cottonfs.rs:1104-1206 | create and mkdir refuse non-directories, names over 60 bytes with "Filename too long", and names already present with "File exists" or "Directory exists"; otherwise they add the name |
| CottonDirs.Create | kernel/src/fs/cottonfs.rs:1104-1154 | create refuses non-directories, names over 60 bytes and present names ("File exists") leaving the volume alone; a success implies the checks passed, appends a regular-file entry for the returned inode to the cached entries, leaves the directory clean, and the returned node loads from the table |
| CottonDirs.Mkdir | kernel/src/fs/cottonfs.rs:1156-1206 | mkdir refuses non-directories, names over 60 bytes and present names ("Directory exists") leaving the volume alone; a success implies the checks passed, appends a directory entry for the returned inode to the cached entries, leaves the directory clean, and the returned node loads from the table |
| CottonDirs.Unlink | kernel/src/fs/cottonfs.rs:1208-1244 | unlink refuses non-directories and answers "File not found" for a missing name; otherwise it removes the first entry with the name and, on success, frees its inode, saves the shortened directory and leaves the node clean |
| CottonDirs.Removed | kernel/src/fs/cottonfs.rs:1229-1231 | removing position pos shifts the later entries down by one and keeps the earlier ones |
| CottonDirs.Sync | kernel/src/fs/cottonfs.rs:1272-1284 | sync does nothing for a clean node or a node that is neither file nor directory, and otherwise saves the file data or the directory entries |
| CottonDirs.CreateThenLookup | kernel/src/fs/cottonfs.rs:1058-1154 | after a successful create in a directory with unique names, the names stay unique and looking the name up finds the node created |
| CottonDirs.CreateThenReaddir | kernel/src/fs/cottonfs.rs:1009-1154 | after a successful create, readdir lists one more entry, the new name last with its kind and inode number |
| CottonDirs.ReaddirLast | kernel/src/fs/cottonfs.rs:1009-1056 | a directory whose entries end with e lists e last |
| CottonDirs.UnlinkThenLookup | kernel/src/fs/cottonfs.rs:1058-1244 | after a successful unlink in a directory with unique names, the names stay unique and the name is no longer found |
| CottonDirs.RemoveUnique | kernel/src/fs/cottonfs.rs:1229-1231 | removing an entry from unique names keeps them unique and leaves its name absent |
| CottonDirs.AddEntryPersists | kernel/src/fs/cottonfs.rs:1104-1206 | create and mkdir keep the filesystem consistent, and after a successful one the directory's blocks load back as its cached entries |
| CottonDirs.AddNewPersists | kernel/src/fs/cottonfs.rs:1134-1153 | adding a new name keeps the filesystem consistent, and after a successful one the directory's blocks load back as its cached entries |
| CottonDirs.UnlinkPersists | kernel/src/fs/cottonfs.rs:1208-1244 | unlink keeps the filesystem consistent, and after a successful one the directory's blocks load back as its cached entries |
| CottonDirs.UnlinkSaved | kernel/src/fs/cottonfs.rs:1237-1243 | saving and then freeing the inode keeps the filesystem consistent, and on success the directory loads back as saved |
| CottonDirs.SyncIdempotent | kernel/src/fs/cottonfs.rs:1272-1284 | after a successful sync a second sync has nothing left to do |
| Vfs.ModeConstants | kernel/src/fs/vfs.rs:23-40 | the default file mode is 0o644, the default directory mode 0o755, owner rwx is 0o700 and all permission bits together are 0o777 |
| Vfs.FromBitsTruncate | kernel/src/fs/vfs.rs:23-40 | truncating to the declared flags keeps exactly the nine permission bits of the input and clears every other bit |
| Vfs.DefaultStat | kernel/src/fs/vfs.rs:62-81 | the default stat is an empty regular file with mode 0o644, one link and 4096-byte blocks on device 0 |
| Vfs.DefaultResult | kernel/src/fs/vfs.rs:103-171 | an inode that does not override an operation answers "Not a regular file" for read, write and truncate, "Not a directory" for the directory operations, "Operation not supported" for chmod and chown, "Not a device" for ioctl, and succeeds only for sync |
| Vfs.DefaultResultClasses | kernel/src/fs/vfs.rs:103-171 | the default answer is "Not a regular file" exactly for the file operations and "Not a directory" exactly for the directory operations |
| Vfs.DefaultStatfs | kernel/src/fs/vfs.rs:187-189 | a filesystem that does not override statfs answers "Not implemented" |
| VfsPath.Split | kernel/src/fs/mod.rs:232 | splitting on '/' always yields at least one component |
| VfsPath.SplitNoSlash | kernel/src/fs/mod.rs:232 | no component of a split holds a slash |
| VfsPath.JoinSplit | kernel/src/fs/mod.rs:232 | joining the components of a split with '/' gives back the path |
| VfsPath.SplitPrefix | kernel/src/fs/mod.rs:232 | a slash-free component followed by a slash splits off as the first component |
| VfsPath.SplitJoin | kernel/src/fs/mod.rs:232 | slash-free components joined with '/' split back into the same components |
| VfsPath.JoinSnoc | kernel/src/fs/mod.rs:232 | joining one more component adds a slash and that component |
| VfsPath.LastSlash | kernel/src/fs/mod.rs:287 | the last slash is found exactly when the path has one, and no slash follows it |
| VfsPath.SplitPathRejoin | kernel/src/fs/mod.rs:286-297 | split_path gives a slash-free name; a path without slash has parent "."; otherwise parent, slash and name rebuild the path, or the parent is "/" for a name right under the root |
| VfsPath.SplitPathOfJoin | kernel/src/fs/mod.rs:286-297 | a non-empty parent joined with a slash-free name splits back into that parent and name |
| VfsResolve.Meaningful | kernel/src/fs/mod.rs:232-235 | the components left to walk are at most all of them, none is empty or ".", and each comes from the path |
| VfsResolve.ResolvePath | kernel/src/fs/mod.rs:229-247 | resolution walks exactly the components that are not empty or ".", so a path with none resolves to where it starts |
| VfsResolve.WalkAppend | kernel/src/fs/mod.rs:229-247 | walking two runs of components is walking the first and then, unless it failed, the second from where it ended |
| VfsResolve.WalkMeaningful | kernel/src/fs/mod.rs:232-235 | empty and "." components do not change the walk |
| VfsResolve.OnlySkippedStays | kernel/src/fs/mod.rs:229-247 | a path of only empty and "." components resolves to where it started |
| VfsResolve.NoneMeaningful | kernel/src/fs/mod.rs:232-235 | a run of only skipped components leaves nothing to walk |
| VfsResolve.ResolveName | kernel/src/fs/mod.rs:229-247 | a single name resolves to what the start's lookup finds, "No parent" when ".." finds nothing, "Not found" when another name finds nothing, or the lookup's error |
| VfsResolve.DotDotHasNoParent | kernel/src/fs/mod.rs:237-240 | a ".." where the current inode has no parent ends the whole walk with "No parent" whatever follows |
| VfsResolve.WalkSameLookups | kernel/src/fs/mod.rs:229-247 | the walk depends only on what the lookups answer |
| VfsResolve.LastCovering | kernel/src/fs/mod.rs:208-221 | the mount searched from the back is the last one whose path covers the path, and none is found exactly when no mount covers it |
| VfsResolve.Lookup | kernel/src/fs/mod.rs:196-226 | lookup refuses the empty path with "Empty path", answers "VFS not initialized" without a root, and resolves "/" to the root |
| VfsResolve.AddMount | kernel/src/fs/mod.rs:158-169 | mounting appends the mount point at the end and keeps the earlier ones |
| VfsResolve.FirstWithPath | kernel/src/fs/mod.rs:175 | the search finds the first mount with exactly the path, and none exactly when no mount has it |
| VfsResolve.Umount | kernel/src/fs/mod.rs:172-181 | umount fails with "Mount point not found" exactly when no mount has the path, and otherwise removes one mount |
| VfsResolve.MountThenLookup | kernel/src/fs/mod.rs:158-226 | after mounting at p, looking up p gives the mounted root and p followed by a slash and a rest resolves the rest from it |
| VfsResolve.UmountAfterMount | kernel/src/fs/mod.rs:158-181 | unmounting a path just mounted, not mounted before, restores the mount table |
| VfsResolve.LookupSameLookups | kernel/src/fs/mod.rs:196-226 | path lookup depends only on what the inodes' lookups answer |
| VfsWorld.BootOk | kernel/src/fs/mod.rs:45-111 | the booted VFS, a RAM root at "/" and the device filesystem at "/dev", satisfies the world invariant |
| VfsWorld.NodeLookup | kernel/src/fs/vfs.rs:118-120 | an inode's lookup is the RAM filesystem's for its nodes, the device filesystem's for /dev, and the trait default "Not a directory" for a device |
| VfsWorld.NodeStat | kernel/src/fs/mod.rs:280-283 | stat of any inode in the world succeeds, with the RAM node's stat, the /dev directory's or the device's |
| VfsWorld.NodeType | kernel/src/fs/vfs.rs:97 | only RAM nodes are regular files, and only RAM nodes and /dev are directories |
| VfsWorld.NodeRead | kernel/src/fs/vfs.rs:103-106 | a read returns no more bytes than the buffer holds, changes the world only when reading the random device, reads a RAM file as the RAM filesystem does, and refuses /dev as not a regular file |
| VfsWorld.NodeWrite | kernel/src/fs/vfs.rs:108-111 | a successful write reports the buffer's length; only RAM writes change the world, /dev refuses, and devices accept every byte |
| VfsWorld.NodeTruncate | kernel/src/fs/vfs.rs:148-151 | truncate changes only RAM files, and other inodes give the trait default |
| VfsWorld.NodeSync | kernel/src/fs/vfs.rs:162-165 | sync on any inode of the world succeeds |
| VfsWorld.NodeAdd | kernel/src/fs/mod.rs:250-263 | create and mkdir go to the RAM filesystem, /dev and devices refuse with "Not a directory", and a created node is in the world |
| VfsWorld.NodeUnlink | kernel/src/fs/mod.rs:266-271 | remove goes to the RAM filesystem, and other inodes refuse with "Not a directory" |
| VfsWorld.NodeReaddir | kernel/src/fs/mod.rs:274-277 | readdir lists a RAM directory as the RAM filesystem does, /dev as the device filesystem does, and refuses a device |
| VfsWorld.NodeLookupIn | kernel/src/fs/mod.rs:229-247 | a lookup in a consistent world finds only nodes of that world |
| VfsWorld.WalkIn | kernel/src/fs/mod.rs:229-247 | a path walk in a consistent world ends only at nodes of that world |
| VfsWorld.LookupPath | kernel/src/fs/mod.rs:196-226 | the empty path is refused with "Empty path", and in a consistent world every inode a lookup returns is in the store |
| VfsWorld.ParentOf | kernel/src/fs/mod.rs:250-271 | the parent of a path is the lookup of split_path's parent part, with split_path's name, and fails exactly as that lookup fails |
| VfsWorld.AddPath | kernel/src/fs/mod.rs:250-263 | creating at a path whose parent does not resolve fails with the lookup's error, and a created node is in the world |
| VfsWorld.RemovePath | kernel/src/fs/mod.rs:266-271 | removing at a path whose parent does not resolve fails with the lookup's error and changes nothing |
| VfsWorld.ReaddirPath | kernel/src/fs/mod.rs:274-277 | readdir of a path that does not resolve fails with the lookup's error |
| VfsWorld.StatPath | kernel/src/fs/mod.rs:280-283 | stat of a path fails exactly when the path does not resolve |
| VfsWorld.ReadFile | kernel/src/fs/mod.rs:332-344 | read_file of a path that does not resolve fails with the lookup's error and changes nothing |
| VfsWorld.WriteAndSync | kernel/src/fs/mod.rs:358-360 | writing the data at offset 0 and syncing succeeds exactly when the write does, with the write's effect |
| VfsWorld.WriteFile | kernel/src/fs/mod.rs:347-361 | write_file never changes the root or the mount table; when the path does not resolve and create fails, that failure is what it answers |
| VfsWorld.FileBytesKeepLookups | kernel/src/fs/mod.rs:494-509 | changing a file's bytes changes no inode's answer to a name lookup |
| VfsWorld.FileBytesKeepPaths | kernel/src/fs/mod.rs:196-247 | changing a file's bytes changes no path's lookup |
| VfsWorld.FileBytesKeepOk | kernel/src/fs/mod.rs:494-509 | changing a file's bytes keeps the world consistent |
| VfsWorld.WriteFileThenReadFile | kernel/src/fs/mod.rs:332-361 | write_file on an existing RAM file succeeds, keeps the world consistent, and read_file of the same path then returns exactly the data written |
| VfsWorld.BootRoot | kernel/src/fs/mod.rs:69-84 | after boot "/" resolves to the RAM root |
| VfsWorld.BootDevNull | kernel/src/fs/mod.rs:94-97 | after boot "/dev" resolves to the device filesystem's root and "/dev/null" to its null device, inode 2 |
| VfsWorld.BootDevDotDot | kernel/src/fs/mod.rs:237-240 | after boot "/dev/.." fails with "No parent", because the device root has no parent |
| VfsWorld.OpenFd | kernel/src/fs/mod.rs:306-312 | a new descriptor is at offset 0 with its inode and flags |
| VfsWorld.FdRead | kernel/src/fs/mod.rs:314-318 | a descriptor read answers as the inode's read at its offset and advances the offset by the count read, wrapping at 2^64, only on success |
| VfsWorld.FdWrite | kernel/src/fs/mod.rs:320-324 | a descriptor write answers as the inode's write at its offset and advances the offset by the buffer's length only on success |
| VfsWorld.FdSeek | kernel/src/fs/mod.rs:326-328 | a seek sets the offset and keeps the inode and flags |
| VfsWorld.FdReadsCompose | kernel/src/fs/mod.rs:314-318 | two successive descriptor reads inside a RAM file return what one read of both buffers returns, and end at the same offset |
| VfsWorld.FdWriteSeekRead | kernel/src/fs/mod.rs:306-328 | writing through a descriptor, seeking back and reading the same length returns the bytes written and ends after them |
| SortedMap.LessIrreflexive | kernel/src/fs/mod.rs:406 | no name sorts before itself in the byte order the directory map keeps |
| SortedMap.LessTransitive | kernel/src/fs/mod.rs:406 | the name order is transitive |
| SortedMap.LessTotal | kernel/src/fs/mod.rs:406 | any two distinct names are ordered one way or the other |
| SortedMap.LessAsymmetric | kernel/src/fs/mod.rs:406 | two names are never each before the other |
| SortedMap.Keys | kernel/src/fs/mod.rs:537 | the keys of a map are its names in order |
| SortedMap.Get | kernel/src/fs/mod.rs:565 | a lookup finds nothing exactly when no entry has the name, and otherwise a value stored under that name |
| SortedMap.Insert | kernel/src/fs/mod.rs:584 | inserting adds only the new entry to what was there |
| SortedMap.Remove | kernel/src/fs/mod.rs:617 | removing keeps only entries that were there and drops every entry with the name |
| SortedMap.InsertFront | kernel/src/fs/mod.rs:584 | a name below every key goes first |
| SortedMap.InsertPast | kernel/src/fs/mod.rs:584 | a name above the first key is inserted among the rest |
| SortedMap.GetInsert | kernel/src/fs/mod.rs:565-584 | after inserting k with v, looking up k gives v and every other name gives what it gave before |
| SortedMap.GetRemove | kernel/src/fs/mod.rs:565-617 | after removing k, looking up k finds nothing and every other name gives what it gave before |
| SortedMap.RemoveAbsent | kernel/src/fs/mod.rs:617 | removing a name that is not there leaves the map as it was |
| SortedMap.InsertAbove | kernel/src/fs/mod.rs:584 | inserting a name above a bound keeps every key above it |
| SortedMap.AllAboveChain | kernel/src/fs/mod.rs:406 | keys above a bound are above any lower bound |
| SortedMap.InsertSorted | kernel/src/fs/mod.rs:584 | insertion keeps the keys strictly increasing |
| SortedMap.RemoveAbove | kernel/src/fs/mod.rs:617 | removal keeps every key above a bound |
| SortedMap.RemoveSorted | kernel/src/fs/mod.rs:617 | removal keeps the keys strictly increasing |
| SortedMap.SortedPairs | kernel/src/fs/mod.rs:537 | in a sorted map an earlier key is strictly less than a later one, so no two are equal |
| SortedMap.GetSorted | kernel/src/fs/mod.rs:565 | in a sorted map, looking up any stored key gives its own value |
| SortedMap.InsertKeys | kernel/src/fs/mod.rs:576-584 | after an insertion a name is present exactly when it is the inserted one or was present before |
| RamFs.Statfs | kernel/src/fs/mod.rs:392-401 | statfs succeeds with 4096-byte blocks and reports no more free blocks or inodes than exist |
| RamFs.NewValid | kernel/src/fs/mod.rs:373-381 | the new filesystem, one root directory with inode 1 and no parent, satisfies the invariant |
| RamFs.InosDistinct | kernel/src/fs/mod.rs:571-611 | in a valid filesystem no two nodes share an inode number |
| RamFs.SizeOf | kernel/src/fs/mod.rs:439-445 | a file's size is its byte count and a directory's is 32 bytes per entry |
| RamFs.Stat | kernel/src/fs/mod.rs:456-473 | stat always succeeds on device 1 with the node's inode, mode and type, one link, no rdev, 4096-byte blocks, its size, and the number of 4096-byte blocks that size needs |
| RamFs.Read | kernel/src/fs/mod.rs:475-492 | a read fails with "Not a regular file" exactly on a directory, and otherwise copies as the shared file-data read does |
| RamFs.SetData | kernel/src/fs/mod.rs:494-509 | replacing one node's contents changes no other node and not the counter |
| RamFs.Write | kernel/src/fs/mod.rs:494-509 | a write fails with "Not a regular file" exactly on a directory and changes nothing then; otherwise it reports the buffer's length and the file becomes the shared file-data write of it |
| RamFs.Truncate | kernel/src/fs/mod.rs:624-633 | truncate fails with "Not a regular file" exactly on a directory; otherwise the file is resized with zero fill |
| RamFs.Listing | kernel/src/fs/mod.rs:537-543 | each entry is listed in order with its child's type and inode number |
| RamFs.Readdir | kernel/src/fs/mod.rs:511-549 | readdir fails with "Not a directory" exactly on a file; otherwise it lists ".", then ".." with the parent's inode or its own without a parent, then the entries in order |
| RamFs.Lookup | kernel/src/fs/mod.rs:551-569 | lookup fails with "Not a directory" exactly on a file; "." finds nothing, ".." finds the parent, and any other name finds what the entry map holds |
| RamFs.AddNode | kernel/src/fs/mod.rs:584 | adding a child appends the node, inserts its handle under the name in the parent, and changes no other node |
| RamFs.AddEntry | kernel/src/fs/mod.rs:571-611 | create and mkdir fail with "Not a directory" on a file and with "File exists" or "Directory exists" on a taken name, changing nothing; otherwise they add a fresh empty node, without parent, numbered from the shared counter |
| RamFs.Create | kernel/src/fs/mod.rs:571-590 | create succeeds exactly in a directory without the name, and a failure changes nothing; a success returns a new node, an empty regular file numbered from the counter, which then advances |
| RamFs.Mkdir | kernel/src/fs/mod.rs:592-611 | mkdir succeeds exactly in a directory without the name, and a failure changes nothing; a success returns a new node, an empty directory numbered from the counter, which then advances |
| RamFs.Sync | kernel/src/fs/vfs.rs:162-165 | sync on a node succeeds and changes nothing |
| RamFs.WriteValid | kernel/src/fs/mod.rs:494-509 | a write keeps the filesystem valid |
| RamFs.TruncateValid | kernel/src/fs/mod.rs:624-633 | truncate keeps the filesystem valid |
| RamFs.UnlinkValid | kernel/src/fs/mod.rs:613-622 | unlink keeps the filesystem valid |
| RamFs.AddEntryValid | kernel/src/fs/mod.rs:571-611 | create and mkdir keep the filesystem valid while the counter does not wrap |
| RamFs.Unlink | kernel/src/fs/mod.rs:613-622 | unlink fails with "Not a directory" exactly on a file, and otherwise removes the name, whether or not it was there |
| RamFs.ReadAfterWrite | kernel/src/fs/mod.rs:475-509 | reading back the range just written returns exactly the bytes written |
| RamFs.CreateThenLookup | kernel/src/fs/mod.rs:551-590 | after create the name looks up to the new node, an empty regular file with the next inode number |
| RamFs.MkdirThenLookup | kernel/src/fs/mod.rs:511-611 | after mkdir the name looks up to the new directory, whose ".." finds nothing and whose listing is "." and ".." both with its own inode |
| RamFs.AddExisting | kernel/src/fs/mod.rs:576-598 | creating or making a directory again under a name just created fails with "File exists" or "Directory exists" and changes nothing |
| RamFs.UnlinkThenLookup | kernel/src/fs/mod.rs:551-622 | after unlink the name finds nothing and every other name finds what it found before |
| RamFs.UnlinkAbsent | kernel/src/fs/mod.rs:613-622 | unlinking a missing name succeeds and changes nothing |
| RamFs.ReaddirSorted | kernel/src/fs/mod.rs:537 | after "." and "..", readdir lists names in strictly increasing order |
| RamFs.ReaddirEntry | kernel/src/fs/mod.rs:537-543 | every listed entry names a child that lookup finds, with that child's inode and type |
| RamFs.ReaddirAt | kernel/src/fs/mod.rs:537-543 | the listing's k-th entry after "." and ".." is the directory's k-th entry |
| RamFs.AddEntryAsWritten | kernel/src/fs/mod.rs:571-611 | with a separate counter in create and in mkdir, a new node gets the number of the counter for its kind, and a failure changes neither |
| RamFs.AsWrittenInosCollide | kernel/src/fs/mod.rs:580-581 | with the two counters, a file and then a directory created in the root both get inode 1000 |
| RamFs.SharedCounterDistinct | kernel/src/fs/mod.rs:580-602 | with one shared counter the same two creations get different inode numbers and the filesystem stays valid |
| DevFs.NewContents | kernel/src/fs/devfs.rs:21-45 | the new device directory holds console, null, random, tty and zero in name order, with inodes 5, 2, 4, 6 and 3 |
| DevFs.NewEntriesSorted | kernel/src/fs/devfs.rs:21-45 | the device entries are in strictly increasing name order |
| DevFs.FirstThree | kernel/src/fs/devfs.rs:29-35 | inserting null, zero and random leaves them in name order |
| DevFs.LastTwo | kernel/src/fs/devfs.rs:38-41 | inserting console and tty afterwards gives the full sorted table |
| DevFs.Rdev | kernel/src/fs/devfs.rs:168-380 | each device number carries its major number in the high byte and its minor number in the low byte |
| DevFs.DeviceMode | kernel/src/fs/devfs.rs:160-380 | every device can be read and written by its owner and executed by nobody |
| DevFs.DeviceModes | kernel/src/fs/devfs.rs:160-380 | null and zero are 0o666, random 0o644, console and tty 0o620, and only null and zero are writable by others |
| DevFs.DeviceStat | kernel/src/fs/devfs.rs:160-176 | a device's stat is a character device with its inode, mode and device number, one link, size 0 and 4096-byte blocks |
| DevFs.DirStat | kernel/src/fs/devfs.rs:82-99 | the device directory's stat is a directory with inode 1, mode 0o755, two links and size 0 |
| DevFs.Listing | kernel/src/fs/devfs.rs:116-122 | each device is listed in order as a character device with its inode |
| DevFs.Readdir | kernel/src/fs/devfs.rs:101-125 | readdir lists "." with inode 1, ".." with inode 1, then every device in order |
| DevFs.Lookup | kernel/src/fs/devfs.rs:127-137 | lookup always succeeds; "." and ".." find nothing and any other name finds the device stored under it |
| DevFs.NewLookup | kernel/src/fs/devfs.rs:21-137 | each of the five devices is found under its own name |
| DevFs.NewLookupNull | kernel/src/fs/devfs.rs:29-136 | "null" finds the null device, inode 2 |
| DevFs.NewListing | kernel/src/fs/devfs.rs:101-125 | the new directory lists console 5, null 2, random 4, tty 6 and zero 3 after "." and ".." |
| DevFs.XorshiftNonzero | kernel/src/fs/devfs.rs:282-286 | one xorshift step never turns a non-zero seed into zero |
| DevFs.RandomBytes | kernel/src/fs/devfs.rs:281-289 | drawing n bytes gives n bytes, the first being the low byte of the next seed |
| DevFs.RandomBytesCompose | kernel/src/fs/devfs.rs:279-289 | drawing n and then m bytes gives the same bytes and seed as drawing n + m at once |
| DevFs.RandomSeedNonzero | kernel/src/fs/devfs.rs:279-289 | a non-zero seed stays non-zero however many bytes are drawn |
| DevFs.Read | kernel/src/fs/devfs.rs:179-391 | null, console and tty read nothing and leave the buffer; zero fills the buffer with zeros; random fills it whole; only random changes the state |
| DevFs.RandomReadsCompose | kernel/src/fs/devfs.rs:277-291 | two reads of /dev/random give the same bytes and end state as one read of both buffers |
| Boot.Step | kernel/src/main.rs:225 | a tag's step is a multiple of 8, at least its size and less than 8 above it while the 32-bit sum does not wrap |
| Boot.TagAt | kernel/src/main.rs:128-129 | a tag read at an offset carries that offset, the type and size words found there, and framebuffer fields exactly when its type is 8 |
| Boot.WalkCons | kernel/src/main.rs:127-226 | while the walk continues, it records the tag at the current offset and carries on one step further, and that step moves forward |
| Boot.WalkHalts | kernel/src/main.rs:127-135 | the walk stops at an end tag of type 0, on reaching total_size, at a tag whose step is zero, or at a read past the given bytes, and records a tag only in the zero-step case |
| Boot.NextCons | kernel/src/main.rs:225 | the offset after a run of tags is reached one step at a time |
| Boot.WalkInRange | kernel/src/main.rs:124-127 | the walk starts at its first offset and visits only offsets below total_size |
| Boot.WalkChain | kernel/src/main.rs:225 | each visited tag follows the previous one by exactly its rounded size, strictly further on |
| Boot.WalkAligned | kernel/src/main.rs:124-225 | starting 8-aligned, every visited tag offset is 8-aligned |
| Boot.WalkReads | kernel/src/main.rs:128-157 | every visited tag lies within the given bytes, is what is read there, and is not an end tag |
| Boot.WalkEnds | kernel/src/main.rs:127-135 | a walk ending at an end tag finds type 0 at the offset after the last tag, and one ending past total_size reaches total_size there |
| Boot.WalkFails | kernel/src/main.rs:225 | a walk that sticks repeats its last tag, and one that overruns stops inside total_size at an offset the bytes cannot supply |
| Boot.Select | kernel/src/main.rs:203-221 | a framebuffer tag is kept as it is when it is direct RGB with a non-zero address, non-zero width and at least 24 bits, or indexed with a non-zero address; otherwise VGA text mode replaces it |
| Boot.LastFields | kernel/src/main.rs:137-157 | there is no last framebuffer tag exactly when no visited tag is one |
| Boot.ScanIsLast | kernel/src/main.rs:137-221 | only the last framebuffer tag decides the framebuffer, and without one the VGA text default stays |
| Boot.ScanSnoc | kernel/src/main.rs:137-221 | one more framebuffer tag overrides everything before it, and any other tag changes nothing |
| Boot.BootFramebuffer | kernel/src/main.rs:100-105 | without boot information the framebuffer is 80x25 VGA text at 0xb8000 with pitch 160 and 16 bits |
| Boot.BootFramebufferIs | kernel/src/main.rs:107-233 | a completed walk boots with the framebuffer of the last framebuffer tag when it is kept and VGA text mode otherwise |
| Boot.GraphicsNeedsTag | kernel/src/main.rs:446-450 | graphics comes up only from a kept framebuffer tag, and a kept RGB tag of at least 640x480 and 24 bits away from address 0 and 0xb8000 always brings it up |
| Boot.Enter | kernel/src/main.rs:387 | entering sets the initialized flag |
| Boot.EntersOnce | kernel/src/main.rs:376-392 | of any number of entries, only the first ever proceeds and the rest halt |
| Boot.DecimalFits | kernel/src/main.rs:159-172 | a number below 10^k has at most k decimal digits |
| Boot.PrintU32 | kernel/src/main.rs:159-172 | filling the ten-byte buffer from the back leaves the decimal digits of the 32-bit value from the returned index on |
| Text.Token | kernel/src/shell.rs:56 | the first word of a line starting with a non-space is its longest run of non-space characters, ended by a space or the line's end |
| Text.Words | kernel/src/shell.rs:56 | split_whitespace yields only non-empty words without whitespace |
| Text.WordsSkipSpaces | kernel/src/shell.rs:56 | leading whitespace does not change the words of a line |
| Text.TokenOfWord | kernel/src/shell.rs:56 | a word followed by whitespace or the line's end is read back whole |
| Text.WordsOfWordThen | kernel/src/shell.rs:56 | a line starting with a word and then whitespace splits into that word and the words of the rest |
| Text.WordsOfJoin | kernel/src/shell.rs:56-79 | words joined with single spaces split back into the same words |
| Text.BlankHasNoWords | kernel/src/shell.rs:56-58 | an all-whitespace line has no words |
| Text.DigitChar | kernel/src/shell.rs:166-171 | a digit value below 10 is spelt by the character that many places above '0' |
| Text.Decimal | kernel/src/shell.rs:166-171 | a number's decimal spelling is all digits, at least one, with a leading '0' only for zero, and a single digit exactly for numbers below 10 |
| Text.DecimalValue | kernel/src/shell.rs:166-171 | the decimal spelling of n reads back as n |
| Text.ValueDecimal | kernel/src/shell.rs:166-171 | a digit string without a leading zero is the spelling of its own value |
| Text.PrintDecimal | kernel/src/shell.rs:166-171 | the digit loop produces the decimal spelling |
| KShell.GetCwd | kernel/src/shell.rs:18-22 | the working directory is "/" until one is set, and the set one afterwards |
| KShell.ResolvePath | kernel/src/shell.rs:41-52 | an absolute path stays as it is; a relative one goes under the working directory, with a single slash after "/"; the result is absolute when the directory is |
| KShell.FoldAppend | kernel/src/shell.rs:660-666 | normalising two runs of components is normalising the first and then the second from the stack it left |
| KShell.FoldOfClean | kernel/src/shell.rs:660-666 | plain names are pushed as they are |
| KShell.FoldClean | kernel/src/shell.rs:660-666 | the stack never holds an empty component, ".", ".." or a slash |
| KShell.SplitSlash | kernel/src/shell.rs:660 | a leading slash splits off an empty first component |
| KShell.NormalizePath | kernel/src/shell.rs:657-673 | normalize_path yields "/" or a slash followed by plain names separated by single slashes |
| KShell.NormalFixed | kernel/src/shell.rs:657-673 | a normal path normalises to itself |
| KShell.NormalizeIdempotent | kernel/src/shell.rs:657-673 | normalising twice is normalising once |
| KShell.Parts | kernel/src/shell.rs:657-673 | the components of a normal path are plain names |
| KShell.PartsOfNormal | kernel/src/shell.rs:657-673 | a normal path other than "/" splits into an empty piece and its components, and rendering them gives it back |
| KShell.AppendAtRoot | kernel/src/shell.rs:657-673 | normalising a name under "/" is one normalising step from the empty stack |
| KShell.SplitBelowRoot | kernel/src/shell.rs:660 | a name appended to a normal path splits into the path's components plus the name |
| KShell.AppendBelowRoot | kernel/src/shell.rs:657-673 | normalising a name appended to a normal path other than "/" is one step from the path's components |
| KShell.NormalizeAppend | kernel/src/shell.rs:657-673 | normalising a normal path with one more component takes just one step on its components, so ".." drops the last name, "." and "" keep the path, and a name is added |
| KShell.DotDotAtRoot | kernel/src/shell.rs:663 | ".." at the root stays at the root |
| KShell.ResolveThenNormalize | kernel/src/shell.rs:41-52 | normalising a resolved relative path is normalising the working directory, a slash and the path |
| KShell.CatFilter | kernel/src/shell.rs:259-264 | cat keeps at most the bytes read, and only printable ASCII, newline, carriage return and tab |
| KShell.CatFilterAppend | kernel/src/shell.rs:259-264 | filtering two chunks is filtering each and concatenating |
| KShell.CatFilterKeepsText | kernel/src/shell.rs:259-264 | text made only of kept bytes comes through unchanged |
| KShell.CatLoopFilters | kernel/src/shell.rs:252-274 | the 256-byte read loop of cat from any offset produces the filter of the whole rest of the file |
| KShell.CatLoop | kernel/src/shell.rs:252-274 | the read loop produces at most as many characters as there are bytes left from the offset |
| KShell.ExecCat | kernel/src/shell.rs:239-277 | no operand gives "cat: missing file argument"; a failed lookup reports its error; a non-regular inode is refused; a regular file gives its whole contents, filtered to what cat prints |
| KShell.ExecCd | kernel/src/shell.rs:217-237 | cd changes the working directory only by setting a normal path, and then answers nothing |
| KShell.UptimeSplits | kernel/src/shell.rs:166-171 | the hours, minutes and seconds shown add up to the whole seconds of the tick count, with minutes and seconds below 60 |
| KShell.Execute | kernel/src/shell.rs:55-93 | an empty line answers nothing; only cd changes the shell; every command but the delegated ones answers text; a delegated command is handed on with its arguments |
| KShell.EchoJoins | kernel/src/shell.rs:79 | echo answers its words joined by single spaces |
| KShell.UnknownCommand | kernel/src/shell.rs:91 | a command outside the table answers "Unknown command: '<cmd>'. Type 'help'." and changes nothing |
| KShell.CdWords | kernel/src/shell.rs:56 | "cd p" splits into cd and p |
| KShell.PwdWords | kernel/src/shell.rs:56 | "pwd" splits into pwd alone |
| KShell.CdThenPwd | kernel/src/shell.rs:85-237 | after cd into a directory, pwd prints the normalised resolved path |
| Editor.Lens | kernel/src/gui/mod.rs:430-433 | the line lengths, one per line in order |
| Editor.JoinCons | kernel/src/gui/mod.rs:200-202 | the content of a first line followed by more lines is that line, a newline and the content of the rest |
| Editor.Frame | kernel/src/gui/mod.rs:200-202 | the content of lines before, one line and lines after is the text above, that line and the text below |
| Editor.SpanAbove | kernel/src/gui/mod.rs:200-202 | the text above a line is as long as those lines plus one newline each |
| Editor.CursorSplit | kernel/src/gui/mod.rs:200-202 | the cursor's offset in the content splits it into the text before the cursor and the text after it |
| Editor.CursorEnds | kernel/src/gui/mod.rs:200-202 | the cursor is at offset 0 exactly at the first column of the first line, and at the content's end exactly at the end of the last line |
| Editor.CharCountIsLength | kernel/src/gui/mod.rs:430-433 | the character count, line lengths plus one less than the number of lines, is the length of the content |
| Editor.New | kernel/src/gui/mod.rs:162-177 | a new editor is valid, with empty content and the cursor at its start |
| Editor.LineEnd | kernel/src/gui/mod.rs:183 | a line ends at the first newline or at the end of the text |
| Editor.LoadLines | kernel/src/gui/mod.rs:183-186 | loading always gives at least one line |
| Editor.Load | kernel/src/gui/mod.rs:180-197 | a file that cannot be read changes nothing; otherwise the editor holds its lines, names the file, puts the cursor at the start, and clears the undo and redo stacks and the modified flag |
| Editor.Save | kernel/src/gui/mod.rs:205-214 | saving succeeds exactly when there is a file name and writing the content to it succeeds, and only a success clears the modified flag |
| Editor.LineEndAfter | kernel/src/gui/mod.rs:183 | a newline-free line followed by a newline or nothing ends where it ends |
| Editor.LinesOfContent | kernel/src/gui/mod.rs:183-202 | lines without newlines or a trailing carriage return, the last not empty, split back from their content unchanged |
| Editor.SaveThenLoad | kernel/src/gui/mod.rs:180-214 | reloading saved content gives back the same lines when they can survive the round trip |
| Editor.TrailingEmptyLineLost | kernel/src/gui/mod.rs:183 | a trailing empty line does not survive saving and loading: ["a", ""] comes back as ["a"] |
| Editor.PushUndo | kernel/src/gui/mod.rs:217-224 | pushing an undo state records the buffer last, clears redo, changes nothing else, and keeps at most 100 states by dropping the oldest |
| Editor.Undo | kernel/src/gui/mod.rs:227-235 | with nothing to undo nothing changes; otherwise the top undo entry becomes the buffer, the current buffer goes on the redo stack, and the two stacks hold as many entries as before |
| Editor.Redo | kernel/src/gui/mod.rs:238-246 | the mirror image of undo: the top redo entry becomes the buffer and the current buffer goes on the undo stack |
| Editor.RedoUndo | kernel/src/gui/mod.rs:227-246 | redo right after undo restores the buffer and both stacks, and leaves the editor modified |
| Editor.UndoRedo | kernel/src/gui/mod.rs:227-246 | undo right after redo restores the buffer and both stacks, and leaves the editor modified |
| Editor.UndoRedoValid | kernel/src/gui/mod.rs:227-246 | undo and redo keep the editor valid and do nothing when their stack is empty |
| Editor.PushUndoValid | kernel/src/gui/mod.rs:217-224 | pushing an undo state keeps the editor valid |
| Editor.InsertEdits | kernel/src/gui/mod.rs:249-274 | inserting a character, a newline included, puts it into the content at the cursor's offset and moves the cursor one past it |
| Editor.Insert | kernel/src/gui/mod.rs:249-274 | a newline adds exactly one line and leaves the lines above the cursor alone; any other character lengthens the cursor's line by one and keeps the line count |
| Editor.Backspace | kernel/src/gui/mod.rs:277-296 | within a line the lines above stay and the line count is kept; at column 0 the line joins the one above (one line fewer, cursor one line up); at the very start nothing changes |
| Editor.Delete | kernel/src/gui/mod.rs:299-313 | the cursor stays put and the lines above it stay; joining the next line removes exactly one line; with nothing after the cursor nothing changes |
| Editor.InsertChar | kernel/src/gui/mod.rs:249-274 | the buffer before the edit is on top of the undo stack, redo and the selection are cleared, the editor is marked modified, and undo brings the old buffer back |
| Editor.DeleteChar | kernel/src/gui/mod.rs:277-296 | the buffer before the edit is on top of the undo stack, redo and the selection are cleared, and undo brings the old buffer back |
| Editor.DeleteForward | kernel/src/gui/mod.rs:299-313 | as for delete_char, and the editor is marked modified exactly when it already was or something could be deleted |
| Editor.BackspaceEdits | kernel/src/gui/mod.rs:277-296 | backspace removes the character before the cursor, joining lines at a line start, and moves the cursor back one; at the very start it does nothing |
| Editor.DeleteEdits | kernel/src/gui/mod.rs:299-313 | delete removes the character under the cursor, joining lines at a line end, and keeps the cursor's offset; at the very end it does nothing |
| Editor.EditsValid | kernel/src/gui/mod.rs:249-313 | every edit keeps the editor valid, records the previous buffer for undo and clears redo |
| Editor.Clamp | kernel/src/gui/mod.rs:316-336 | the column kept on a line change is the old one when it fits and the line's end otherwise |
| Editor.StepsMoveByOne | kernel/src/gui/mod.rs:316-356 | left and right move the cursor's offset by one within the content; up and down move one line within the text, keeping the column where it fits |
| Editor.Up | kernel/src/gui/mod.rs:316-324 | the text is untouched, the line goes up one (stopping at the first), and the column is kept where the new line is long enough, otherwise clamped to its end |
| Editor.Down | kernel/src/gui/mod.rs:327-335 | the text is untouched, the line goes down one (stopping at the last), and the column is kept where the new line allows, otherwise clamped |
| Editor.Left | kernel/src/gui/mod.rs:338-345 | the text is untouched, the cursor never moves to a later line, and it stays valid |
| Editor.Right | kernel/src/gui/mod.rs:348-356 | the text is untouched, the cursor never moves to an earlier line, and it stays valid |
| Editor.Home | kernel/src/gui/mod.rs:359-361 | the text and line are untouched and the column does not grow |
| Editor.End | kernel/src/gui/mod.rs:364-366 | the text and line are untouched and the column does not shrink |
| Editor.ToStart | kernel/src/gui/mod.rs:369-372 | the text is untouched and the cursor stays valid |
| Editor.ToEnd | kernel/src/gui/mod.rs:375-378 | the text is untouched and the cursor is valid |
| Editor.PageUp | kernel/src/gui/mod.rs:381-387 | the text is untouched and the line moves up by the visible lines, stopping at the first |
| Editor.PageDown | kernel/src/gui/mod.rs:390-396 | the text is untouched and the line moves down by the visible lines, stopping at the last |
| Editor.JumpsLand | kernel/src/gui/mod.rs:359-378 | home and end go to the ends of the line; start and end of file go to offset 0 and to the content's length |
| Editor.Scroll | kernel/src/gui/mod.rs:399-413 | the new scroll puts the position in view, and keeps the old scroll whenever the position was already in view |
| Editor.EnsureCursorVisible | kernel/src/gui/mod.rs:399-413 | afterwards the cursor is inside the visible window, a window that already showed it does not move, and only the scroll offsets change |
| Editor.UpdateBlink | kernel/src/gui/mod.rs:416-422 | the blink counter stays below 30, the cursor's visibility flips exactly when the counter reaches 30, and nothing else changes |
| UShell.Latin1 | userspace/src/shell.rs:70-72 | each byte becomes the character with the same code |
| UShell.ReadFrom | userspace/src/shell.rs:54-82 | the input left after a line is no longer than the input |
| UShell.Edit | userspace/src/shell.rs:64-77 | a backspace or delete pops the last character and echoes "\b \b"; a byte from 0x20 up (other than delete) is appended and echoed; any other byte changes nothing and echoes nothing |
| UShell.ReadFromStops | userspace/src/shell.rs:54-82 | the line holds only typed characters, reading stops just after the first newline or carriage return, and input without one is used up |
| UShell.ReadLine | userspace/src/shell.rs:54-82 | a line read from the start holds only typed characters, and the input left is exactly what follows the first line end |
| UShell.ReadTypedRun | userspace/src/shell.rs:70-73 | typed bytes without a line end are appended and echoed one for one, consuming the whole input |
| UShell.ReadFromAppend | userspace/src/shell.rs:54-82 | input without a line end is consumed whole, so reading it and then more is reading both in one go |
| UShell.ReadTyped | userspace/src/shell.rs:62-73 | typed bytes and then a newline give the line of those characters, echo them and the newline, and leave the rest unread |
| UShell.TypedThenErased | userspace/src/shell.rs:66-73 | a typed character followed by delete leaves the line as it was and echoes the character then backspace, space, backspace |
| UShell.BackspaceCancels | userspace/src/shell.rs:54-82 | a typed character erased straight away changes neither the line read nor the input left |
| UShell.BackspaceOnEmpty | userspace/src/shell.rs:66-70 | erasing on an empty line does nothing and echoes nothing |
| UShell.JoinLeadingEmpty | userspace/src/shell.rs:162-169 | joining pieces after an empty one puts a slash in front |
| UShell.CdParentParts | userspace/src/shell.rs:158-169 | cd .. from a normal directory drops its last component, staying at "/" |
| UShell.CdParentAgrees | userspace/src/shell.rs:158-169 | the user shell's cd .. lands where the kernel shell's normalisation of cwd/.. does |
| UShell.CdChildParts | userspace/src/shell.rs:170-176 | cd into a plain name from a normal directory appends that name |
| UShell.CdChildAgrees | userspace/src/shell.rs:170-176 | the user shell's cd into a plain name lands where the kernel shell's normalisation does, at a normal path |
| UShell.CdTarget | userspace/src/shell.rs:153-176 | an absolute target is taken as it is, and any other target except ".." is placed under the working directory as mkdir places it |
| UShell.Cd | userspace/src/shell.rs:153-187 | cd without an argument targets "/"; the shell moves to the target exactly when chdir accepts it, answering nothing, and otherwise stays and reports an error |
| UShell.MkdirPath | userspace/src/shell.rs:207-215 | an absolute operand is used as it is; a relative one ends the path, after a slash |
| UShell.Mkdir | userspace/src/shell.rs:200-224 | mkdir prints nothing exactly when every operand's directory is created |
| UShell.Cat | userspace/src/shell.rs:226-252 | a single file that opens is shown byte for byte; one that does not open gets "cat: <path>: No such file" |
| UShell.CatAppend | userspace/src/shell.rs:232-251 | the operands are shown in order: cat a b prints what cat a and then cat b print |
| UShell.HistoryNumberAsWrittenBreaks | userspace/src/shell.rs:293-302 | entry 1000 is numbered ":00", not digits, because the hundreds digit is not reduced mod 10 |
| UShell.HistoryNumberSpells | userspace/src/shell.rs:286-302 | an entry number is right-aligned in three columns and its digits spell the number |
| UShell.HistoryNumberAgrees | userspace/src/shell.rs:286-302 | below 1000 the as-written numbering and the corrected one agree |
| UShell.HistoryNumberAgreesBelow | userspace/src/shell.rs:286-302 | when every entry number of a listing stays below 1000, the first one is numbered the same as written and corrected |
| UShell.History | userspace/src/shell.rs:286-309 | the listing numbered as written is the one numbered in full decimal while the entry numbers stay below 1000 |
| UShell.HistoryAppend | userspace/src/shell.rs:286-309 | recording one more command adds exactly one line, numbered after the others, to the end of the listing |
| UShell.Execute | userspace/src/shell.rs:85-118 | a command stops the shell exactly when its first word is exit or quit; no command changes the prompt or history, only cd changes the directory, and an unrecognised word is reported as "Unknown command" |
| UShell.Interact | userspace/src/shell.rs:28-51 | an empty line is skipped; any other line is appended to the history before it runs |
| Gui.Shown | kernel/src/gui/mod.rs:452-463 | the file list holds exactly the directory's entries other than "." and ".." |
| Gui.Refresh | kernel/src/gui/mod.rs:450-473 | refreshing keeps the directory and history, clears the selection and scrolls to the top |
| Gui.NewFileManager | kernel/src/gui/mod.rs:436-448 | a new file manager shows the path, with a history of just that path |
| Gui.NavigateTo | kernel/src/gui/mod.rs:476-486 | navigating drops the forward history, appends the path, points at it and shows it, keeping the history consistent |
| Gui.GoBack | kernel/src/gui/mod.rs:488-497 | back succeeds exactly when there is an earlier entry, then moves one entry back; on failure nothing changes; the history itself never changes |
| Gui.GoForward | kernel/src/gui/mod.rs:499-508 | forward succeeds exactly when there is a later entry, then moves one entry forward; on failure nothing changes; the history itself never changes |
| Gui.NavigateThenBack | kernel/src/gui/mod.rs:476-508 | after navigating, back returns to the directory before and forward returns to the new path |
| Gui.BackThenForward | kernel/src/gui/mod.rs:488-508 | back and then forward returns to the same directory, cursor and history |
| Gui.NonEmpty | kernel/src/gui/mod.rs:545 | filtering the pieces of a path leaves no empty piece |
| Gui.SelectedFilePath | kernel/src/gui/mod.rs:511-526 | there is a selected file path exactly when a file, not a directory, is selected, and it is the file's name under the current directory |
| Gui.OpenSelected | kernel/src/gui/mod.rs:528-559 | opening succeeds exactly when a directory is selected, navigating to the path it names, and otherwise changes nothing |
| Gui.NonEmptyClean | kernel/src/gui/mod.rs:545 | plain names pass the empty-piece filter unchanged |
| Gui.ComponentsOfNormal | kernel/src/gui/mod.rs:545 | the non-empty pieces of a normal path are its components |
| Gui.OpenParentAgrees | kernel/src/gui/mod.rs:532-550 | opening ".." from a normal directory lands where the shell's normalisation of cwd/.. does |
| Gui.OpenChildAgrees | kernel/src/gui/mod.rs:532-555 | opening a plain name from a normal directory lands at the child path, the normalisation of cwd/name, which is normal |
| Gui.NewWindow | kernel/src/gui/mod.rs:567-582 | a new window has its id and is visible, focused and not being dragged |
| Gui.SquareBound | kernel/src/gui/mod.rs:591-597 | a point within radius 7 is at most 7 away on each axis |
| Gui.HitAreasNest | kernel/src/gui/mod.rs:585-604 | the close button lies in the title bar for windows at least 22 wide, and the title bar in the window for windows at least as tall as it |
| Gui.Unfocused | kernel/src/gui/mod.rs:657-659 | unfocusing keeps every window in place with only its focus cleared |
| Gui.CreateWindow | kernel/src/gui/mod.rs:652-664 | the new window takes the next id, which then grows by one, and goes on top, focused, with its title; every earlier window stays in place, unfocused |
| Gui.Others | kernel/src/gui/mod.rs:667-669 | retain keeps no window with the id and no more windows than there were |
| Gui.CloseWindow | kernel/src/gui/mod.rs:667-669 | no window with the id remains, no window is added, and the next id is kept |
| Gui.Find | kernel/src/gui/mod.rs:677 | the search finds the first window with the id, and none exactly when no window has it |
| Gui.SetFocus | kernel/src/gui/mod.rs:673-675 | after the focus loop exactly the windows with the id are focused, in place |
| Gui.FocusWindow | kernel/src/gui/mod.rs:672-681 | the window count and next id are kept; a present id ends up on top and focused; an unknown id leaves no window focused |
| Gui.FocusOnTop | kernel/src/gui/mod.rs:672-681 | focusing a present window moves it, focused, to the top and unfocuses the rest in order; an absent id only unfocuses every window |
| Gui.FocusExclusive | kernel/src/gui/mod.rs:672-681 | after focusing a present window it is on top and the only focused one |
| Gui.CreateKeepsOk | kernel/src/gui/mod.rs:652-664 | creating a window keeps ids unique, positive and below the next id |
| Gui.CloseKeepsOk | kernel/src/gui/mod.rs:667-669 | closing a window keeps the desktop consistent |
| Gui.MoveToTopOk | kernel/src/gui/mod.rs:677-680 | moving a window to the top keeps the desktop consistent |
| Gui.FocusKeepsOk | kernel/src/gui/mod.rs:672-681 | focusing keeps the desktop consistent |
| Gui.OthersSub | kernel/src/gui/mod.rs:667-669 | retain keeps only windows that were there, so ids stay unique |
| Gui.CreateThenClose | kernel/src/gui/mod.rs:652-669 | closing the window just created leaves the earlier windows, unfocused, in order |
| Gui.OthersAppend | kernel/src/gui/mod.rs:667-669 | retain over two runs of windows is retain over each |
| Gui.OthersAbsent | kernel/src/gui/mod.rs:667-669 | retain with an id no window has keeps them all |
| Gui.PathBoxWidth | kernel/src/gui/mod.rs:1681-1684 | the path box is 320 wide when there is room, 80 when there is little, and otherwise the content width less 48 |
| Gui.PathBoxWidthTests | kernel/src/gui/mod.rs:1745-1755 | content widths 100 and 1000 give path boxes of 80 and 320 |
| Gui.TrimPath | kernel/src/gui/mod.rs:1687-1692 | a path that fits is shown whole; a longer one starts with "..." and, when more than three characters may show, fills the box exactly with the end of the path; with room for three or more the result always fits |
| Gui.PathBoxChars | kernel/src/gui/mod.rs:1736 | the path box holds between 8 and 38 characters |
| Gui.TrimPathTests | kernel/src/gui/mod.rs:1757-1768 | "/home/user" fits in 20 characters unchanged, and the long example trimmed to 10 starts with "..." and fits |

## Left out

- Context switching, the assembly entry stubs, port I/O instructions, `hlt`, `cli`/`sti` and `rdtsc` are not modelled; the values they read are parameters and the values they write are returned as lists of port writes.
- Concurrency mechanics (spinning, atomics, real preemption) are not modelled; locks, semaphores, condition variables and barriers are state machines whose interleavings are sequences of task steps.
- Floating point (`format_bytes` and the GUI size labels) is left out.
- GUI rendering, fonts, the framebuffer driver, drawing and event handling are left out; only the editor, file-manager history, window list and path-box arithmetic are modelled.
- The kernel heap allocator (kernel/src/mm/heap.rs) and the crate glue files are not part of this model.
- `kprintln`/`println` output and every diagnostic print are left out.
- Scheduler.Schedule: the context switch itself is left out; the model reports whether a switch would be attempted.
- Paging: `map_page`, `unmap_page` and `init` allocate and write page tables through raw pointers and are left out; `translate` works over an abstract map from table addresses to 512-entry tables.
- Mm: `init` and the bootloader's memory-map pointer walk are left out; `parse_memory_map` is modelled over a list of entries.
- VirtualMemory: `vm_to_arch_flags_arm` (the non-x86 flag mapping) and page-table population inside `map_region` are left out.
- VirtualMemory.MapRegion: reports Done whenever there is a frame for every page; `paging::map_page` can still fail with "Failed to allocate PDPT", "Failed to allocate PD" or "Failed to allocate PT" (paging.rs:167-220), and the table frames it takes come from the same physical allocator, so fewer pages may be mapped than the contract says.
- VirtualMemory.UnmapRegion: does not return the unmapped pages' frames to the physical allocator as `physical::free_frame` (virtual_mem.rs:188) does, and reports every missing mapping as "Page not mapped" where `paging::unmap_page` names the level whose entry is missing (PML4, PDPT, PD or PT, paging.rs:229-247).
- Arch: the non-x86 stubs are left out.
- Serial: port initialisation is left out; `write_byte` polls are modelled as a given sequence of status reads.
- Mouse: `init` (controller commands) is left out.
- Keyboard: `init_ps2` is left out.
- Pit: `init` port writes beyond the divisor bytes, and `sleep_ms` (which spins on the tick count) are left out.
- Pit.Divisor: a frequency of 0 is a precondition; the source would divide by zero.
- Pit.Divisor: below 19 Hz the quotient no longer fits 16 bits and only its low 16 bits are sent, as the source's byte writes do; the model does not prove anything about such frequencies.
- Pit.UptimeMsMeans: assumes `ticks * 1000` fits 64 bits; the source's multiplication would overflow beyond that.
- Pit.UptimesAgree: assumes `ticks * 1000` fits 64 bits, for the same reason.
- Cpu: the core count (always 1) and `rdtsc` are left out; the family's u8 addition wraps as the source's does.
- Cpu.BrandString: trims ASCII whitespace only; Rust's `trim` also removes non-ASCII Unicode whitespace (U+0085, U+00A0, U+2000 to U+200A and others) at either end of a UTF-8 brand, which the model keeps. Cpu.BrandStringAscii, where the two agree, is unaffected.
- Ata: `detect`'s busy/ready polling, `flush`'s polling, the `from_utf8` fallback to "unknown" and the channel base ports are left out; each status read is a parameter.
- Ata.Lba28Truncates: the source does not check that a 28-bit LBA fits, so higher bits are silently dropped; the model shows the truncation and does not add a check.
- Ata.CommandWrites: the register writes are stated as one list; their interleaving with the polling is not modelled.
- Storage: the sector reader is a parameter; `device_count` and the global registry's locking are left out; GPT header and entry CRCs are not checked, as in the source.
- Storage.ReadGpt: adds an entry-size check (see Findings) that the source lacks.
- Storage.ReadGptTable: stated only for entry sizes from 128 to 512 bytes, the ones the added check lets through.
- CottonFs: device I/O errors inside save paths, the inode cache, the byte images written by `sync_superblock` and the bitmap sync, the file-system-level `sync`, the indirect block pointer, timestamps and lossy UTF-8 name decoding are left out; `CottonFS::new` reading the bitmaps from disk is modelled as mounting from given bitmaps.
- CottonDirs.Unlink: frees the inode with the corrected `FreeInode` and saves the directory with the corrected `SaveDirEntries` (see Findings); the source's `save_dir_entries` (cottonfs.rs:1238) keeps stale block pointers, so the removed entry can come back (CottonDirs.SaveDirAsWrittenResurrects).
- RamFs.Statfs: states the block size and that free counts never exceed totals, not the fixed figures the source returns.
- RamFs: the `next_ino` field of the RAM file system is never read by the source and is left out.
- VfsWorld: only the configuration with a RAM file system at the root is assembled; the CottonFS root is modelled on its own in CottonFs, CottonFiles and CottonDirs and is not dispatched to through the VFS.
- VfsWorld: `sync_all` is left out.
- VfsWorld.FdRead: the offset wraps at 2^64 as a release build's u64 addition does; a debug build would panic instead.
- Boot: serial output, the other BootInfo fields, `_rust_start` and pointer arithmetic are left out; the tag walk reads a byte sequence, and a read past it stops the walk.
- Boot: the decimal `type=` print overflows nothing in the model because digits are unbounded.
- Boot: `create_directory_structure`, `create_system_files` and the storage-information print in `kernel_main` are left out.
- KShell: the commands the shell hands to other subsystems (info, mem, df, sync, ps, panic, reboot, halt, ls, touch, mkdir, rm and write) are answered with a marker for delegation; the printing twins of each command and `run()` are left out.
- UShell: system calls (chdir, getcwd, read, write, ps, date, uname) are parameters; `ls`, `mkdir`, `cat`, `ps`, `date` and `uname` print through them and are not modelled beyond their argument checks.
- UShell.ReadFrom: bytes after a line end within one 256-byte read are discarded by the source; the model returns them as the input left over.
- Editor: lossy UTF-8 decoding of loaded files and `selection_start` (never used) are left out.
- Gui.Refresh: does not sort directories first and then by name; the listing is a parameter taken in the order given.
- Gui.CreateWindow: window ids are unbounded; the source's u32 `next_window_id` would wrap after 2^32 windows.
- ProcTable.AllocPid: the pid counter is an unbounded natural; the source's u32 counter would wrap (or panic in a debug build) after 2^32 allocations, which the model does not reach.
- ProcTable.AllocPidsIncreasing: holds for the unbounded counter only; past 2^32 allocations the source's u32 counter wraps and pids repeat.
- Scheduler.Charge: the scheduler's tick count and each process's cpu time are unbounded naturals; the source's u64 counters would wrap after 2^64 ticks.
- Console.WriteByte: a tab uses the corrected, clamped tab stop (see Findings); the source's `(col + 8) & !7` can move the column to 88, which the model never reaches.
- Console.WriteBytes: keeps the console good only because tabs are clamped; with the source's unbounded tab the column can pass the width.
- Console.BackspaceErases: stated for a good console, where the column is at most 80; with the source's unbounded tab a backspace from column 88 blanks a cell of the next row or past the screen, as Console.BackspaceAfterTabsLeavesScreen shows.
- CottonFiles.WriteBlocks: allocates with the corrected `AllocBlock`; the source's `alloc_block` can hand out one block twice on a disk larger than the bitmap covers (see Findings).
- CottonFiles.WriteBlocksSound: distinct, owned blocks rest on the corrected `AllocBlock`.
- CottonFiles.SaveFileData: saves through WriteBlocks, so with the corrected `AllocBlock`.
- CottonFiles.SaveLoadRoundTrip: rests on the corrected `AllocBlock`; on a disk past the bitmap the source's save can write two chunks to one block.
- CottonFiles.WritePersists: rests on the corrected `AllocBlock`, for the same reason.
- CottonDirs.AddNew: saves the directory with the corrected `SaveDirEntries`, which clears stale pointers; the source's `save_dir_entries` keeps them (see Findings).
- CottonDirs.AddEntry: create and mkdir persist through the corrected `SaveDirEntries`.
- CottonDirs.Create: persists through the corrected `SaveDirEntries`.
- CottonDirs.Mkdir: persists through the corrected `SaveDirEntries`.
- CottonDirs.Sync: a dirty directory is saved with the corrected `SaveDirEntries`.
- CottonDirs.AddNewPersists: proved over the corrected save, for the same reason.
- CottonDirs.AddEntryPersists: proved over the corrected save; with the source's save, a reload after an earlier shrink can bring stale entries back.
- CottonDirs.UnlinkPersists: proved over the corrected save; with the source's save, CottonDirs.SaveDirAsWrittenResurrects shows the removed entry coming back.
- CottonDirs.UnlinkSaved: proved over the corrected `SaveDirEntries`, which the source's unlink does not call.
- RamFs.AddEntry: create and mkdir number new nodes from one shared counter, so inode numbers stay distinct; the source keeps one function-local counter in each, both starting at 1000 (RamFs.AsWrittenInosCollide).
- RamFs.Create: numbered from the shared counter, for the same reason.
- RamFs.Mkdir: numbered from the shared counter, for the same reason.
- RamFs.InosDistinct: holds for the shared counter only; with the source's two counters a file and a directory can share an inode number.
- RamFs.AddEntryValid: the validity it keeps includes the shared counter's numbering, which the source's two counters break.
- RamFs.CreateThenLookup: the "next inode number" is the shared counter's.
- VfsWorld.NodeAdd: creates through RamFs.Create and RamFs.Mkdir, so with the shared inode counter.
- VfsWorld.AddPath: inherits NodeAdd's shared inode counter.
- Editor: columns index characters; the source indexes the line's bytes, so the model agrees with it on ASCII text only (a multi-byte character counts once here and several times there, and the source can split one and panic).
- Gui.TrimPath: trims by characters; the source slices bytes, so the two agree on ASCII paths only.
- VfsPath: paths are character sequences; the source's byte-wise splitting agrees on ASCII paths only.

## Findings

| source | as written | input that shows it | evidently intended | confidence | as-written member | corrected member |
|---|---|---|---|---|---|---|
| kernel/src/sync/condvar.rs:79-114 | a task reads the generation before it takes the arrival lock, so when the previous round completes in between, the task is counted in the new round but sees the generation already changed and returns at once | barrier for 2 then reused for 3 tasks, schedule [0,1,1,1,2,2,0,0,0]: task 0 returns alone and leaves current = 1 with nobody waiting | the snapshot and the arrival happen under one lock, so a task returns only after its own round completes | not executed | SyncCondvar.BarrierStaleSnapshot | SyncCondvar.BarrierFixedSound |
| kernel/src/mm/virtual_mem.rs:200-232 | the candidate address moves to the end of any region it meets, without a lower bound at the user start | a region [0x1000, 0x2000) and a user request of 0x1000 bytes answers 0x2000 | answers lie at or above USER_START | not executed | FreeRegion.FindFreeRegionBelowStart | FreeRegion.FindFreeRegionFixedSound |
| kernel/src/mm/virtual_mem.rs:227 | the end-of-space check adds size to the candidate with wrapping u64 arithmetic | size 2^64 − USER_START with no regions wraps the sum and USER_START is answered | a request that does not fit is refused | not executed | FreeRegion.FindFreeRegionWraps | FreeRegion.FindFreeRegionFixedSound |
| kernel/src/arch/x86_64/idt.rs:557-566 | arguments two to five are read from frame slots that, under the push order of the entry stub, hold rbp, r8, r9 and r10 rather than the rsi, rdx, r10 and r8 the comments name | a call with rsi = 1 and every other register 0 decodes arg2 = 0 | arg1..arg5 come from rdi, rsi, rdx, r10, r8 | not executed | Idt.DecodeSyscallLosesRsi | Idt.DecodeSyscallConvention |
| kernel/src/fs/cottonfs.rs:422-445 | free_inode increments the free count without checking that the inode's bit was set | freeing inode 2 right after a format reports 2048 free inodes while the root is still allocated | freeing an unallocated inode changes nothing | not executed; no caller frees an unallocated inode | CottonFs.FreeInodeAsWrittenInflates | CottonFs.FreeInodeConsistent |
| kernel/src/fs/cottonfs.rs:448-473 | alloc_block scans every data block of the disk, but the block bitmap covers only 2^20 of them and set_bit beyond it is a no-op | a disk two blocks larger than the bitmap covers, with the bitmap full, hands out the same block twice | allocation stops at the last block the bitmap covers | not executed | CottonFs.AllocBlockAsWrittenRepeats | CottonFs.AllocBlockTwiceDistinct |
| kernel/src/fs/cottonfs.rs:779-829 | save_dir_entries writes the blocks still holding entries and leaves the old trailing blocks on disk | unlinking the only entry of a directory and reloading it brings the entry back | a reload returns exactly the saved entries | not executed | CottonDirs.SaveDirAsWrittenResurrects | CottonDirs.SaveDirRoundTrip |
| kernel/src/fs/mod.rs:580-602 | create and mkdir each keep their own static inode counter starting at 1000 | creating a file "a" and a directory "b" gives both inode 1000 | inode numbers are distinct across the file system | not executed | RamFs.AsWrittenInosCollide | RamFs.InosDistinct |
| userspace/src/shell.rs:293-302 | history numbers are printed from three fixed digit positions | entry 1000 is printed as ":00" | every entry number printed in decimal | not executed | UShell.HistoryNumberAsWrittenBreaks | UShell.HistoryNumberSpells |
| kernel/src/drivers/console.rs:62-75 | a tab moves to the next multiple of 8 without a bound at the row's end, and backspace then writes at row*80 + col − 1 | two tabs from column 79 reach column 88; a backspace on row 24 writes cell 2007 of the 2000-cell screen | the cursor stays within the row and every write within the screen | not executed | Console.BackspaceAfterTabsLeavesScreen | Console.TabStops |
| kernel/src/drivers/storage/mod.rs:203-216 | the entry loop stops when the result holds num_entries entries, not after num_entries slots | a table of 2 entries whose first slot is unused yields the third slot | only the first num_entries slots are read | not executed | Storage.CollectAsWrittenOverreads | Storage.CollectFixedStaysInTable |
| kernel/src/drivers/storage/mod.rs:196-197 | the slots per sector are 512 / entry_size with no check of entry_size | an entry size of 64 gives 8 slots whose last overruns the sector's 128-byte entry read; 600 gives 0 slots and the sector count divides by zero | entry sizes are checked before use | not executed | Storage.EntrySizeUnchecked | Storage.ReadGptTable |
| kernel/src/arch/x86_64/cpu.rs:73-78 | the extended model is added when the family after adding the extended family is 6 or 0xF, so a base family of 0xF with a non-zero extended family loses it | signature 0x00870F10 (family 17h) decodes to model 1 instead of 0x71 | the extended model is added when the base family is 6 or 0xF | not executed | Cpu.ModelAsWrittenDropsExtendedModel | Cpu.ModelMatchesSdm |
