# A verified model of the RebornOS kernel core

RebornOS is a small SMP kernel. This project models five of its parts in Dafny 4.11 and
proves what they promise, for all inputs, all runs and all interleavings:

* **The scheduler** (`Scheduler*.dfy`). `SchedulerTable` holds the shared table and a class
  with the critical sections as the source loops over them. `SchedulerMachine` is the same
  scheduler as a step machine: any number of cores and slots, one step per lock operation,
  per scanned slot, per store of `switch_context_release`, per load of a stack pointer.
  `SchedulerInvariant`, `SchedulerSafety` and `SchedulerLedger` carry the inductive
  invariant, `SchedulerTheorems` states what follows for every run, `SchedulerStacks` follows
  the words of every stack, and `SchedulerWitness` gives a run in which a stack block is
  shared and damaged.
* **The FAT16 driver** (`Fat*.dfy`). `FatChains` (cluster chains), `FatNames` (8.3 names),
  `FatVolume` (the disk image, directories, paths, well-formedness), `FatMount` (mounting, and
  the on-disk structures field by field), `FatWrite` (what a write does to the whole volume),
  `FatDriver` (the class with the cached FAT and the disk),
  `FatListing` (path resolution and listings), `FatLines` (listings as a reader splits them),
  `FatHistory` (whole histories of writes). The format is that of the Microsoft FAT specification (fatgen103).
* **Page tables and processes.** `PageTables` (four-level tables in physical frames, the
  code's walk beside the processor's walk of sections 4.5 and 4.6 of the Intel SDM, volume
  3A), `AddressSpaces`, `UserMemory` (stack faults, SYS_FB_MAP, SYS_SBRK), `ArgvBlob`,
  `ElfFile`, `ElfImage`, `ElfLayout` and `ElfProcess` (the ELF loader, the last two in terms of
  the fields of the ELF headers), `Processes` (runs of all of these together with
  the processes' own stores), `VmmDriver` (the class whose methods do these things step by
  step).
* **The allocators.** `PagePool` and `PageBitmap` (`Pmm*.dfy`), `HeapBlocks` and `HeapDriver`
  (`Heap*.dfy`).

Wherever a result depends on a constant, a field or a bit of the source, its statement says so
in those terms and not through a definition that the model also computes with: numbers for
offsets, sizes and marks, the fields of a slot, the bits of an entry, and the structures of
`elf64.h` and `fat16.c` written out as bytes (`LittleEndian`).

State that the source changes in place is a class whose methods change fields and are proved
against functions on values; the theorems are about those functions. A panic is a halt: a
method reports it, and a function returns `None`.

Where the model had to choose:

* A saved stack pointer is a pair of the thread that owns the stack and how far that thread
  had run; the heap block of that stack is recorded beside it, and a creation may take any
  block that is not in use, one just freed included. Each word of a block has the thread that
  wrote it last. The scan of `next_ready_after()` is one step per slot, because another core's flag
  store, which is outside the lock, may land in the middle of it.
* The header comment of `process_spawn_args_and_wait()` says it returns 0 once the child has
  exited; the code returns the child's code cut to 32 bits. The model follows the code.
* The comment in `vmm_init()` says that page tables stay off limits to ring 3. They do only
  if the page allocator owns no frame below 4 MiB, because that range is mapped
  user-writable.
* Some promises hold only under a condition, and the exact condition is proved:
  * A written file reads back if and only if its name does not start with the byte 0xE5
    (`WriteThenRead`).
  * `kmalloc()` returns a block as big as asked for if and only if the size is at most
    2^64 - 16 (`MallocBigEnough`).
  * The lines of a listing are the printed names of its entries if and only if none of these
    names has a newline or a NUL in it (`ListingReadsBack`). A line then opens its own entry
    if and only if the stored name has no slash in it either, is canonical, and is the first
    of its kind. An entry whose name prints as nothing or on several lines is opened by a
    line only if that line is empty and the path alone opens the entry (`LineOpensItsEntry`).
    `SlashNameNeverOpens` and `NewlineNameNotOpened` give the failing names.
  * Processes are isolated from each other if no frame the page allocator owns at boot lies
    below 4 MiB, or if no process ever stores there (`NonInterference`). If the allocator
    does own such a frame, the kernel's own top-level table is one, and any process can
    clear its first entry (`LowFrameExposesKernel`).
  * The file bytes of an accepted segment lie in the file if and only if
    `p_offset + p_filesz` does not wrap (`SourcedWhenUnwrapped`, `StrayByte`), and its pages
    hold all of it if and only if `p_vaddr + p_memsz`, rounded up, does not wrap
    (`CoveredWhenWhole`).
  * Two cores stand in one stack block only while one of them is on its way off it
    (`NoSharedStackMemory`); a core that has freed the block still pushes its registers
    there, and that does happen (`WindowIsReal`). A step writes into another thread's stack
    if and only if it makes those pushes at a depth that thread is using (`DamagingStep`),
    which happens too (`DamageIsReal`). A thread created while no core was at work in its
    block has its stack to itself for life (`IntactWhenBornAlone`). The comment in
    `schedule()` that nothing else can touch the block before the switch holds on one core
    only.
  * `kfree()` leaves no neighbouring free blocks if and only if there were none and the block
    in front is in use (`ReleaseFragments`; `OutOfOrderFragments` is the failing list).
* `resolve_directory()` treats a path that starts with a slash as the root and `fat16_open()`
  does not (`LeadingSlash`); listings are therefore joined to paths without one.

## Model

| member | source | states |
|---|---|---|
| `SchedulerTheorems.RunInvariant` | kernel/src/scheduler.c:237-379 | the inductive invariant of flags, contexts, zombies, idle threads, stacks and waits holds in every state of every interleaving, for any number of cores and slots |
| `SchedulerTheorems.NoThreadOnTwoCores` | kernel/src/scheduler.c:284-285 | no thread is current on two cores, and no two cores execute as one thread |
| `SchedulerTheorems.NoSharedStackMemory` | kernel/src/scheduler.c:306-335 | two cores stand in one heap block only if one of them is on its way off it: it freed it and has at most the call, the pushes and the load of `switch_context()` left, or it gave its thread up and has only the load left |
| `SchedulerWitness.WindowIsReal` | kernel/src/scheduler.c:324-335 | a run in which this happens: a core frees a dead thread's stack, another creates a thread in the block and runs it, before the first has switched away |
| `SchedulerWitness.DamageIsReal` | kernel/src/scheduler.c:324-335 | the run goes on: the new thread's stack grows past the dead one's, the first core pushes its registers, and a word of the running thread's stack is the dead thread's |
| `SchedulerStacks.RunWords` | kernel/src/context_switch.S:21-36 | in every state of every run, each word of a thread's stack was last written by that thread, or by a thread that had the same block before it and gave it back |
| `SchedulerStacks.DamagingStep` | kernel/src/context_switch.S:21-36 | a step puts another thread's word into a stack that had only its own if and only if it is the pushes of a core standing in the same block at a depth that stack is using |
| `SchedulerStacks.DamageIsInWindow` | kernel/src/scheduler.c:324-335 | and such a core has freed the stack it stands on and not yet left it |
| `SchedulerStacks.IntactWhenBornAlone` | kernel/src/scheduler.c:116-182 | a thread created while no core was at work in its block never has a word of its stack written by anyone else as long as it lives |
| `SchedulerStacks.PopsAreThere` | kernel/src/context_switch.S:73-81 | the seven words popped after a stack pointer is loaded are on the stack of the thread it belongs to, which holds its block |
| `SchedulerStacks.ResumesIntact` | kernel/src/context_switch.S:62-81 | when such a thread is resumed its whole stack, those words included, is as it left it |
| `SchedulerTheorems.ResumesLatestContext` | kernel/src/context_switch.S:62-81 | a core that loads a stack pointer gets the newest one of the thread now in the slot, never a stale one and never a dead predecessor's, and any other core in that thread's block is on its way off it |
| `SchedulerTheorems.SavesOwnContext` | kernel/src/context_switch.S:71-72 | the stack pointer stored on a switch goes into the slot of the thread it belongs to, which is alive and still claimed by the storing core |
| `SchedulerTheorems.WorkIsNew` | kernel/src/context_switch.S:62-81 | whatever a running thread does makes every stack pointer stored for it out of date |
| `SchedulerTheorems.CountAndZombies` | kernel/src/scheduler.c:263-312 | `active_count` is the number of occupied slots, and each zombie is current on exactly one core |
| `SchedulerTheorems.DeadSwitchesAway` | kernel/src/scheduler.c:263-285 | `schedule()` on a zombie never returns early: its scan ends in a switch to a live unclaimed thread, at the latest the core's idle thread |
| `SchedulerTheorems.StacksFreedOnce` | kernel/src/scheduler.c:306-335 | every thread stack is in its slot, or with the one core about to free it, or freed, exactly one of the three, and freed at most once |
| `SchedulerTheorems.WaitReturnsChildCode` | kernel/src/process.c:38-58 | what the wait reads in its own frame is the one code its own child passed, stored there exactly once through the pointer kept in the child's slot, even if that slot was reused; it is returned as the number from -2^31 to 2^31 - 1 that differs from it by a multiple of 2^32, so a code in that range comes back as itself |
| `SchedulerTheorems.PollReturns` | kernel/src/process.c:50-58 | a wait ends, with the child's code, at the first test that finds the slot not ACTIVE, and a test that finds it ACTIVE changes nothing |
| `SchedulerTheorems.CodeIsStoredInLiveFrame` | kernel/src/scheduler.c:340-365 | whenever a thread stores its code through `exit_code_out`, the frame it points to is that of a live thread still waiting for exactly this child, and nothing was stored there before |
| `SchedulerTheorems.NeverWrittenAfterReturn` | kernel/src/process.c:38-58 | once a wait has returned, no step of any thread writes its frame again |
| `SchedulerTheorems.NobodyIsStuck` | kernel/src/scheduler.c:237-379 | no deadlock in any state of any run: the holder of the lock is in a scan, which goes on and frees the lock after at most one round more than there are slots, and every other core can take its next step unless that step needs this lock |
| `SchedulerTheorems.CreationGoesOn` | kernel/src/scheduler.c:116-182 | with the lock free, a slot unused and a block no live stack is in, every running core can create a thread, and one not waiting can create one and wait for it |
| `SchedulerTheorems.NoEarlyReturn` | kernel/src/scheduler.c:265-268 | with another slot ACTIVE and on no core the early return of `schedule()` cannot fire on a core that has a thread |
| `SchedulerTheorems.BoundedWaiting` | kernel/src/scheduler.c:207-285 | while the thread in a slot is ACTIVE, on no core and not idle, each finished `schedule()` call of a core strictly reduces the cyclic distance to it, so fewer calls than slots pass it by |
| `SchedulerTheorems.SoloSchedule` | kernel/src/scheduler.c:237-317 | without interference the step machine's critical section takes the decision, and leaves the table, of the atomic one the class implements |
| `SchedulerTable.NextReadyIsNearest` | kernel/src/scheduler.c:207-218 | the scan returns the nearest slot after the start, in cyclic order, with `state == ACTIVE`, `running_on_core < 0` and `is_idle == 0`, and -1 exactly when no slot has these three |
| `SchedulerTable.DecisionIs` | kernel/src/scheduler.c:263-285 | in the same three fields: what `schedule()` decides, namely to stay without looking when the thread is not a zombie and `active_count` is at most 1, else the nearest such slot, and without one the idle thread for a zombie and to stay for any other |
| `SchedulerTable.FirstUnusedIsFirst` | kernel/src/scheduler.c:121-127 | the slot search returns the lowest unused slot, or fails because there is none |
| `SchedulerTable.Scheduler.constructor` | kernel/src/scheduler.c:104-114 | every slot unused, no core with a thread |
| `SchedulerTable.Scheduler.NextReadyAfter` | kernel/src/scheduler.c:207-218 | the loop computes the wrapping scan: the nearest slot with these three fields, or -1 |
| `SchedulerTable.Scheduler.ThreadCreate` | kernel/src/scheduler.c:116-182 | fills the first unused slot with a ready thread, its exit pointer, page-table root, program break, cut name and initial frame, and counts it; fails, changing nothing, when the table is full or there is no stack |
| `SchedulerTable.FirstSwitch` | kernel/src/context_switch.S:75-117 | popping that frame lands in the trampoline, which calls the thread's entry with its argument |
| `SchedulerTable.Scheduler.CopyName` | kernel/src/scheduler.c:173-177 | the loop keeps the first 15 characters of the name |
| `SchedulerTable.Scheduler.CreateIdleThreads` | kernel/src/scheduler.c:229-235 | one idle thread per core, with the kernel's page tables, in the table the runs start from |
| `SchedulerTable.Scheduler.Schedule` | kernel/src/scheduler.c:237-317 | decides as described, claims the next slot, reaps a zombie and reports its stack, or changes nothing |
| `SchedulerSafety.NextKeeps` | kernel/src/scheduler.c:237-379 | every one of the fourteen steps keeps the core invariant |
| `SchedulerLedger.NextLedger` | kernel/src/process.c:38-58 | every step keeps the ledger of stack blocks, exit pointers, frames and waits |
| `FatHistory.LastWriteWins` | kernel/src/fat16.c:354-563 | after any history of writes a name reads back as the data of the last write to its stored name, and a name never written reads as at the start: the volume is a map from names to contents |
| `FatHistory.LastNamedWrite` | kernel/src/fat16.c:354-563 | the same in the names used: if write j is the last whose name agrees with this one, in the characters that are kept and up to letter case, the file has the size of its data and a read of at most max bytes gives that data or its first max bytes |
| `FatHistory.NeverNamed` | kernel/src/fat16.c:354-563 | a name that agrees with none of the names written opens and reads as before all the writes |
| `FatHistory.StaysWellFormed` | kernel/src/fat16.c:459-563 | every volume of every history of writes is well formed |
| `FatHistory.NothingLeaks` | kernel/src/fat16.c:506-540 | over any history the number of free clusters is the initial one plus all clusters given back minus all taken |
| `FatHistory.StaysWritable` | kernel/src/fat16.c:470-498 | a name that stands for no directory at the start never comes to stand for one, and the root always ends in unused entries |
| `FatHistory.EmptyIsWellFormed` | kernel/src/fat16.c:470-498 | a volume with an empty root starts such a history |
| `FatWrite.WriteThenRead` | kernel/src/fat16.c:354-395 | open and read after a write give exactly the data or its prefix, if and only if the name does not start with 0xE5 |
| `FatWrite.OthersUnchanged` | kernel/src/fat16.c:459-563 | every path that does not name the written entry, in the root or in subdirectories, opens the same file and reads the same bytes as before |
| `FatWrite.WriteKeepsWellFormed` | kernel/src/fat16.c:506-559 | chains still end, are still disjoint, every entry still names one of them, and the root still ends in unused entries |
| `FatWrite.WriteBalance` | kernel/src/fat16.c:506-540 | free clusters change by exactly the old chain's length minus ceil(size / cluster size), as sets and as numbers |
| `FatWrite.FindMeans` | kernel/src/fat16.c:241-270 | a lookup finds the first entry of that name that does not start with 0xE5 and has bit 3 of its attributes clear, provided no entry up to it starts with a NUL, and fails exactly when there is none |
| `FatWrite.SlotMeans` | kernel/src/fat16.c:465-502 | a write goes to that entry or, without one, to the first that starts with a NUL or 0xE5 |
| `FatWrite.WrittenEntry` | kernel/src/fat16.c:545-551 | the entry a write leaves has the name, attribute byte 32, the first cluster (0 for an empty file) and the size; no other entry of the root changes |
| `FatWrite.WrittenByte` | kernel/src/fat16.c:523-540 | byte j of the i-th cluster a write fills is the data byte at i times the cluster size plus j, and zero past the end of the data |
| `FatWrite.SubdirectoryMeans` | kernel/src/fat16.c:300-307 | a path component leads into the entry found if bit 4 of its attributes is set, to the cluster that entry names |
| `FatMount.MountReads` | kernel/src/fat16.c:97-149 | on a disk laid out as the FAT specification says, from sector 0 or behind a partition table, `fat16_init()` gives the volume with exactly that FAT, those root entries and those clusters, each at its specified sector |
| `FatMount.MountRefuses` | kernel/src/fat16.c:97-131 | it panics without 0x55 0xAA at the end of sector 0, and when neither sector 0 nor the first partition has a FAT16 boot sector |
| `FatMount.BootSectorMeans` | kernel/src/fat16.c:15-95 | a boot sector made of the fields of `fat16_bpb_t` in order is taken for FAT16 exactly when its sectors have 512 bytes and none of the four counts is zero, and gives that geometry |
| `FatMount.ReadsDirent` | kernel/src/fat16.c:32-45 | an entry made of the fields of `fat16_dirent_t` in order is read as exactly its name, attributes, first cluster (both halves) and size |
| `FatChains.ChainIsSound` | kernel/src/fat16.c:85-90 | a chain that ends visits no cluster twice, stays inside the table and contains no free cluster |
| `FatChains.ChainMeans` | kernel/src/fat16.c:51-53 | a chain is a list of clusters from 2 to 0xFFF7 in the table, each entry naming the next cluster, the last entry 0xFFF8 or more |
| `FatChains.ChainIsWalked` | kernel/src/fat16.c:201-221 | a walk bounded by the table size finds every chain that ends |
| `FatChains.LinkedIsChain` | kernel/src/fat16.c:523-531 | the links the write loop stores form exactly the new chain: each entry names the next cluster, the last is 0xFFFF, and no other entry changes |
| `FatChains.FreeClustersBalance` | kernel/src/fat16.c:506-531 | freeing one chain and linking another: nothing leaks and nothing is taken twice |
| `FatNames.RenderThenFormat` | kernel/src/fat16.c:153-180 | printing a stored name and formatting it again gives it back if and only if it is canonical |
| `FatNames.FormatIsCanonical` | kernel/src/fat16.c:153-180 | a name without spaces formats to a canonical one |
| `FatNames.StoredByte` | kernel/src/fat16.c:153-180 | each byte of the stored name: the character there of the part before the first dot, or of the part after it, less 32 if it is one of 97 to 122 and itself otherwise, and 32 where there is none |
| `FatNames.SameStoredName` | kernel/src/fat16.c:153-180 | two names are stored alike exactly when the characters kept of them agree up to letter case |
| `FatNames.FormatName` | kernel/src/fat16.c:153-180 | the three loops compute the padded upper-case name |
| `FatDriver.Driver.AllocCluster` | kernel/src/fat16.c:444-451 | the lowest cluster from 2 on whose entry is 0, or failure exactly when there is none |
| `FatDriver.Driver.FreeChain` | kernel/src/fat16.c:506-514 | exactly the entries of the old chain become 0 |
| `FatDriver.Driver.FindEntry` | kernel/src/fat16.c:241-270 | the first live entry of that name, up to the end mark |
| `FatDriver.Driver.CountClusters` | kernel/src/fat16.c:202-205 | the length of the chain |
| `FatDriver.Driver.ReadClusters` | kernel/src/fat16.c:213-217 | the bytes of all clusters of the chain, in order |
| `FatDriver.Driver.ReadDirectory` | kernel/src/fat16.c:227-236 | the entries of the root or of a subdirectory |
| `FatDriver.Driver.ReadFile` | kernel/src/fat16.c:373-395 | the bytes along the chain, cut to the file size and the caller's limit |
| `FatDriver.Driver.WriteClusters` | kernel/src/fat16.c:516-540 | fails exactly when too few clusters are free; otherwise a fresh chain holds the data in zero-padded chunks and other clusters are untouched |
| `FatDriver.Driver.FindSlot` | kernel/src/fat16.c:465-498 | the existing entry, or else the first deleted or unused one |
| `FatDriver.Driver.StoreEntryAndFat` | kernel/src/fat16.c:545-559 | writing back one sector of the root and the whole FAT changes one entry, syncs the FAT and leaves the data area alone |
| `FatDriver.Driver.WriteFile` | kernel/src/fat16.c:459-563 | succeeds exactly when there is a slot and enough room once the old chain is given back, and then the volume is the written one, with the FAT on disk equal to the cache |
| `FatDriver.SectorWriteIsEntryWrite` | kernel/src/fat16.c:545-558 | changing a copy of the root and writing one sector back is changing one entry in place |
| `FatListing.JoinedResolves` | kernel/src/fat16.c:278-352 | a directory path joined with a name resolves to the directory the path names, with the name left over |
| `FatListing.PathMeans` | kernel/src/fat16.c:278-352 | a path of names of at most 12 characters with byte 47 between them is the list of these names: all but the last are followed as directories and the last is looked up there; as a directory path, all are followed |
| `FatListing.LongNameIsCut` | kernel/src/fat16.c:282-291 | of a name longer than 12 characters the first 12 are followed as a directory and the rest is taken for the next name |
| `FatListing.ListingIsMaximal` | kernel/src/fat16.c:405-434 | a listing is one whole line per live entry in order, as many as fit in the buffer |
| `FatLines.ListingReadsBack` | kernel/src/fat16.c:405-441 | the lines of the text in the buffer are exactly the printed names of the first live entries, as many as fit, if and only if none of those names has a newline or a NUL in it |
| `FatLines.LineOpensItsEntry` | kernel/src/fat16.c:354-434 | for a name that prints on one line that is not empty, that line, joined to the directory's path, opens the entry if and only if the stored name has no slash or NUL in it, is canonical, and no earlier live entry has it; for any other name a line opens the entry if and only if one is empty and the path alone opens it |
| `FatLines.NewlineNameNotOpened` | kernel/src/fat16.c:416-432 | an entry stored as `A`, newline, `B     TXT` opens by that name, and neither of the two lines printed for it opens it |
| `FatLines.NewlineNameIsStored` | kernel/src/fat16.c:153-180 | a write under that name stores it so |
| `FatListing.NameOpensItsEntry` | kernel/src/fat16.c:354-371 | a printed name, joined to the directory's path as one string, opens the entry if and only if the stored name has no slash or NUL in it, is canonical, and no earlier live entry has it; a blank name opens exactly when the path alone does |
| `FatListing.SlashNameNeverOpens` | kernel/src/fat16.c:278-309 | an entry stored as `A/B     TXT` is canonical and listed, and no path opens it |
| `FatListing.LeadingSlash` | kernel/src/fat16.c:278-352 | a path with a leading slash lists the root but opens nothing, unless the root has a directory with a blank name |
| `FatListing.ListDir` | kernel/src/fat16.c:397-442 | on a volume whose directory chains end: -1 when the path names no directory; else the buffer holds the listing and a closing NUL, the rest of it untouched, and the result is the listing's length as a signed 32-bit number |
| `FatListing.OpenPath` | kernel/src/fat16.c:354-371 | the loops read the directories and open the entry the path names, or fail |
| `FatListing.ResolveParentDir` | kernel/src/fat16.c:278-309 | the loop reads and searches one directory per component but the last, cutting components at 12 characters |
| `FatListing.ResolveDir` | kernel/src/fat16.c:314-352 | the loop resolves every component as a directory it reads and searches |
| `FatListing.RenderLine` | kernel/src/fat16.c:416-427 | the loops print base, dot and extension without the padding, and byte 10 |
| `FatListing.FindIn` | kernel/src/fat16.c:241-270 | reading a directory and searching it gives the entry of that name, or none |
| `FatListing.ListDirectory` | kernel/src/fat16.c:405-434 | the loop copies the listing into the buffer, stops before a line that does not fit, and returns the bytes written |
| `PageTables.MapRefines` | kernel/src/vmm.c:145-179 | `vmm_map_page()` is a map update of the processor's walk: the page hits a 4 KiB leaf with the given frame, for ring 3, writable and executable exactly as asked, and every other page of this and every other address space translates as before, however many tables were allocated |
| `PageTables.MapKeeps` | kernel/src/vmm.c:145-179 | it keeps the forest of tables in shape and touches no data page |
| `PageTables.MapPanics` | kernel/src/vmm.c:151-179 | it panics for an address in the shared slot, and otherwise at most with fewer than three pages free |
| `PageTables.ReserveFails` | kernel/src/vmm.c:53-60 | it can only run out of memory when fewer pages are free than tables may be missing |
| `PageTables.HardwareAgrees` | kernel/src/vmm.c:192-218 | the processor's all-levels walk grants exactly the rights of the leaf the code's walk finds |
| `PageTables.WalkInFull` | kernel/src/vmm.c:69-76 | the processor's walk written out: it stops at an entry that is not present, and a right is granted only if the entries of all levels passed grant it |
| `PageTables.CheckRange` | kernel/src/vmm.c:224-244 | 1 exactly when ring 3 may access every byte of a canonical range; a wrapping range is refused |
| `PageTables.PathBits` | kernel/src/vmm.c:146-149 | the shifts and masks are the four base-512 digits of the page number |
| `PageTables.PathInjective` | kernel/src/vmm.c:146-149 | different pages below 2^48 have different index paths |
| `AddressSpaces.BootTree` | kernel/src/vmm.c:62-109 | the tables built at boot start the invariant |
| `AddressSpaces.BootLow` | kernel/src/vmm.c:77-106 | the kernel slot translates to 2 MiB identity pages for four gigabytes and nothing above |
| `AddressSpaces.BootIdentity` | kernel/src/vmm.c:77-106 | after boot the processor maps every address below 4 GiB to itself, writable, for ring 3 and executable exactly below 4 MiB, and no other address of the kernel slot |
| `AddressSpaces.BootPanics` | kernel/src/vmm.c:62-84 | `vmm_init()` panics exactly with fewer than six pages free |
| `AddressSpaces.CreateKeeps` | kernel/src/vmm.c:123-143 | a new address space keeps the invariant and owns a root nobody had |
| `AddressSpaces.CreateRefines` | kernel/src/vmm.c:123-143 | it sees the kernel's slot, one fresh private page and nothing else; all others translate as before |
| `AddressSpaces.CreatedSpace` | kernel/src/vmm.c:123-143 | what the processor sees there: below 512 GiB what the kernel sees, from 0x8000000000 one zeroed page with all rights, and nothing else |
| `AddressSpaces.CreatePanics` | kernel/src/vmm.c:123-143 | it panics exactly with fewer than five pages free |
| `AddressSpaces.Isolation` | kernel/src/vmm.c:123-179 | no frame outside the framebuffer is mapped at two private pages, and none of them is a page table |
| `UserMemory.Invisible` | kernel/src/elf_loader.c:107-129 | a change confined to one process is invisible to every other, byte for byte and right for right |
| `UserMemory.FreshBytes` | kernel/src/elf_loader.c:107-129 | after a page is allocated, filled and mapped, the process sees the data there and everything else as before |
| `UserMemory.StackFaultKeeps` | kernel/src/elf_loader.c:162-188 | a handled fault maps a zeroed writable page at the fault; an unhandled one changes nothing; other processes see neither |
| `UserMemory.StackFaultExactly` | kernel/src/elf_loader.c:162-188 | the handler answers exactly the faults of ring 3 on an absent page from 0x800FFC0000 to 0x8010000000, as long as a page is free, with a page that is writable and not executable; all others are refused; it panics at most with fewer than four pages free |
| `UserMemory.MapScreenKeeps` | kernel/src/syscall.c:198-210 | mapping the framebuffer keeps the invariant and is confined to the caller |
| `UserMemory.ScreenMapped` | kernel/src/syscall.c:198-210 | afterwards page k of the framebuffer is at 0x8008400000 + 4096 k, for ring 3, writable and not executable, unless something was there before, which stays |
| `UserMemory.ScreenSucceeds` | kernel/src/syscall.c:201-207 | three free pages for each page of the screen are enough |
| `UserMemory.SbrkKeeps` | kernel/src/syscall.c:232-263 | success returns the old break and moves it by the increment, failure returns -1 and leaves it, and the heap stays mapped and writable |
| `UserMemory.SbrkFails` | kernel/src/syscall.c:232-263 | -1 is returned for a negative increment, which changes nothing, and otherwise only when no page is left and one up to the new break is missing; with four free pages for each page up to the new break it succeeds |
| `UserMemory.SbrkBytes` | kernel/src/syscall.c:244-255 | bytes already mapped keep their values, new ones read as zero |
| `UserMemory.SbrkRights` | kernel/src/syscall.c:249-254 | pages SYS_SBRK adds are for ring 3 to read and write, not to execute |
| `UserMemory.SeriesOfSbrk` | kernel/src/syscall.c:232-263 | after any series of calls the break is the start plus what succeeded, and each success returned the address right after the previous regions |
| `ArgvBlob.ReadBack` | kernel/src/elf_loader.c:25-69 | entry i of the array points at exactly the i-th string, NUL-terminated, below the array, and the array ends in null |
| `ArgvBlob.Aligned` | kernel/src/elf_loader.c:42-57 | for every accepted argv the stack top is 16-byte and the array 8-byte aligned and both lie in the page, and no space is lost beyond that: the strings start at the stack top, the array is the first multiple of 8 after them and ends less than 16 bytes below 0x8010000000 |
| `ArgvBlob.AcceptedWhen` | kernel/src/elf_loader.c:31-50 | accepted are at most 16 arguments whose strings, rounded up to 8, and pointers take at most 3072 bytes |
| `ArgvBlob.StringsInPlace` | kernel/src/elf_loader.c:55-66 | every string, with its terminator, lies between the stack top and the pointer array |
| `ArgvBlob.StringsAdjoin` | kernel/src/elf_loader.c:60-65 | each string starts right after the terminator of the one before |
| `ArgvBlob.StringsApart` | kernel/src/elf_loader.c:60-66 | no two strings overlap |
| `ArgvBlob.WordRoundTrip` | kernel/src/elf_loader.c:61 | the eight stored bytes of a pointer read back as that pointer |
| `ArgvBlob.WriteArgvBlob` | kernel/src/elf_loader.c:25-69 | the loops fill the page as laid out, and fail exactly beyond 16 arguments or 3072 bytes |
| `ElfImage.CopyIsImage` | kernel/src/elf_loader.c:112-126 | the overlap arithmetic gives every page exactly the segment's bytes, for every straddle |
| `ElfFile.AcceptedInFile` | kernel/src/elf_loader.c:92-94 | the loader's bound test means that the segment lies in the file exactly when the 64-bit sum does not wrap |
| `ElfFile.SourcedWhenUnwrapped` | kernel/src/elf_loader.c:92-126 | all file bytes of an accepted segment lie inside the file exactly when that sum does not wrap |
| `ElfFile.StrayByte` | kernel/src/elf_loader.c:92-126 | the input that shows it: offset 2^64 - 1, one byte, is accepted by every file and read from outside it |
| `ElfImage.CoveredWhenWhole` | kernel/src/elf_loader.c:96-97 | a segment's pages hold every address of it exactly when its rounded end does not wrap |
| `ElfImage.LoadShows` | kernel/src/elf_loader.c:86-130 | whatever wraps, every address on a page of one segment alone shows the byte the loader copies there, with the segment's rights |
| `ElfImage.LoadedImage` | kernel/src/elf_loader.c:86-130 | where nothing wraps, every byte of a PT_LOAD segment reads through the new page tables as the file byte below p_filesz and zero up to p_memsz, and the processor grants ring 3 exactly the segment's rights |
| `ElfLayout.ReadsFile` | common/include/elf64.h:26-52 | a file with the fields of an `Elf64_Ehdr` and of n `Elf64_Phdr`, little-endian and in order, is read as exactly these: it passes the checks if and only if it starts with 0x7F "ELF" and class 2 and its machine is 62, its entry point is e_entry, and its segments are the program headers |
| `ElfProcess.LoadedElf` | kernel/src/elf_loader.c:71-130 | of such a file, byte k of the i-th PT_LOAD header's segment is at p_vaddr + k: the file byte at p_offset + k below p_filesz and zero up to p_memsz, writable and executable for ring 3 exactly as bits 1 and 0 of p_flags say |
| `ElfProcess.LoadedElsewhere` | kernel/src/elf_loader.c:86-130 | every other page of the process, the top stack page aside, has the bytes and rights it had before |
| `ElfProcess.LoadedStackRights` | kernel/src/elf_loader.c:132-148 | the top stack page is writable for ring 3 and not executable |
| `ElfProcess.LoadRefuses` | kernel/src/elf_loader.c:71-94 | a file that is loaded has the right first five bytes and machine, no segment whose file range, added in 64 bits, ends past the file, none that starts in the kernel's slot, and arguments within the limits |
| `ElfProcess.LoadSucceeds` | kernel/src/elf_loader.c:71-156 | conversely such a file is loaded whenever four pages are free for each page of a segment and for the stack page |
| `ElfImage.LoadedStack` | kernel/src/elf_loader.c:132-150 | the child sees exactly the argument page on top of its stack |
| `ElfImage.ChildReadsArgv` | kernel/src/elf_loader.c:25-69 | the child reads its argv: pointers, strings, terminators and the closing null |
| `ElfImage.LoadKeeps` | kernel/src/elf_loader.c:71-156 | loading keeps the invariant and is confined to the new process |
| `Processes.RunIsolation` | kernel/src/vmm.c:123-179 | in every state of every run of spawns, faults, sbrk, framebuffer maps and stores to any address, if the allocator owns no frame below 4 MiB or nobody stores there, two private pages share a frame only in the framebuffer, and none maps a page table |
| `Processes.NonInterference` | kernel/src/syscall.c:198-263 | under the same condition no step changes a translation the kernel or another process sees, or a byte of another process's private window |
| `Processes.SpawnedProcess` | kernel/src/process.c:11-28 | a spawn in any run makes a process that did not exist, with its break at 0x8001400000, leaves every other break alone, and gives it every byte of the file's segments with their rights |
| `Processes.StoreTakesEffect` | kernel/src/vmm.c:171-178 | a store of a process to its private window changes that byte exactly when the leaf lets ring 3 write there |
| `Processes.EntryRoundTrip` | kernel/src/vmm.c:14-20 | an entry is the 64-bit word with flags in bits 0, 1, 2, 7 and 63 and the frame from bit 12 on, and reads back from it; a stray store to a page table replaces one byte of that word |
| `Processes.LowFrameExposesKernel` | kernel/src/vmm.c:77-106 | without it: if the allocator owns a frame below 4 MiB at boot, the kernel's top-level table lies there and any process may clear its first entry, which unmaps the kernel slot |
| `Processes.LowestIsPicked` | kernel/src/pmm.c:126-165 | from the hint `pmm_init()` leaves, the first page handed out is the lowest free one |
| `Processes.LowStoreSeenBy` | kernel/src/vmm.c:98-104 | a store below 4 MiB that hits no page table changes a private byte of some process exactly when that byte lies in the frame of the same address |
| `Processes.KernelSlotAccess` | kernel/src/vmm.c:69-106 | in every state of such a run, of the addresses in the shared kernel slot ring 3 may access exactly those below 4 MiB, the kernel image among them |
| `Processes.HeapsInEveryRun` | kernel/src/syscall.c:232-263 | at every moment of every such run that is orderly each process may read and write every byte from 0x8001400000 to its break |
| `VmmDriver.ReserveIsThreeSteps` | kernel/src/vmm.c:156-169 | three "allocate if missing" steps are the recursive descent |
| `VmmDriver.Kernel.Init` | kernel/src/vmm.c:62-109 | the boot loops build the described tables |
| `VmmDriver.Kernel.Map` | kernel/src/vmm.c:145-179 | the step-by-step code computes the map update, or panics where that has no result |
| `VmmDriver.Kernel.CreateAddressSpace` | kernel/src/vmm.c:123-143 | likewise for a new address space |
| `VmmDriver.Kernel.HandleStackFault` | kernel/src/elf_loader.c:162-188 | likewise for a stack fault, with its return value |
| `VmmDriver.Kernel.MapFramebuffer` | kernel/src/syscall.c:198-210 | likewise for the SYS_FB_MAP loop |
| `VmmDriver.Kernel.GrowHeap` | kernel/src/syscall.c:244-255 | likewise for the SYS_SBRK page loop |
| `VmmDriver.Kernel.Sbrk` | kernel/src/syscall.c:232-263 | likewise for SYS_SBRK, with the new break and the return value |
| `VmmDriver.Kernel.LoadSegment` | kernel/src/elf_loader.c:96-129 | likewise for the pages of one segment |
| `VmmDriver.Kernel.LoadAll` | kernel/src/elf_loader.c:86-130 | likewise for the program headers, skipping those that are not PT_LOAD and refusing one whose wrapped end is past the file |
| `VmmDriver.Kernel.LoadProgram` | kernel/src/elf_loader.c:71-156 | likewise for the whole load: the checks on size, magic number, class and machine, the parsed headers, entry point, stack top and argv pointer |
| `PagePool.PickIsNearest` | kernel/src/pmm.c:148-165 | the wrapping scan fails exactly when no page is free, whatever the hint, and else returns the lowest free page from the hint on, or the lowest of all when there is none from there on |
| `PagePool.AllocIsFresh` | kernel/src/pmm.c:148-192 | over every run, a page handed out was granted at boot, is in nobody's hands, and was not reserved while unheld |
| `PageBitmap.BitUpdates` | kernel/src/pmm.c:21-31 | setting or clearing one bit of a byte leaves the other seven alone |
| `PageBitmap.HandedOutIsSafe` | kernel/src/pmm.c:38-192 | from `pmm_init()` on, no page handed out is page 0, has a byte of the bitmap in it, lies outside memory of type 3, 4 or 7, or is already held |
| `PageBitmap.GrantMeans` | kernel/src/pmm.c:15-136 | `pmm_init()` leaves free exactly the pages other than page 0 that lie in memory of type 3, 4 or 7 and have no byte of the bitmap in them |
| `PageBitmap.HostMeans` | kernel/src/pmm.c:58-82 | the bitmap goes into memory of type 7 with room for the byte of its last bit |
| `PageBitmap.InitSettles` | kernel/src/pmm.c:84-130 | what `pmm_init()` leaves free starts every run well |
| `PageBitmap.Pmm.Init` | kernel/src/pmm.c:38-136 | fails exactly when no conventional region can hold the bitmap; otherwise the free pages are the usable ones outside the bitmap and page 0, and the counter is their number |
| `PageBitmap.Pmm.Alloc` | kernel/src/pmm.c:148-165 | the bitmap scan is the pool's pick; the page leaves the free ones and the hint is the page after it |
| `PageBitmap.Pmm.FreePage` | kernel/src/pmm.c:167-181 | frees a tracked used page; refuses an untracked page and a double free |
| `PageBitmap.Pmm.ReserveRegion` | kernel/src/pmm.c:183-192 | withholds exactly the pages that start before the byte range ends and end after it starts |
| `HeapBlocks.HeapIsSafe` | kernel/src/heap.c:29-98 | after any sequence of kmalloc and kfree of live pointers the blocks tile the 16 MiB from 0x1000000 to 0x2000000, free bytes, used bytes and headers add up to 0x1000000, and live blocks are disjoint, in range, 8-byte aligned and as big as asked |
| `HeapBlocks.MallocFails` | kernel/src/heap.c:61-81 | NULL exactly for size 0 or when no free block fits the rounded size |
| `HeapBlocks.MallocBigEnough` | kernel/src/heap.c:61-75 | the block is as big as asked exactly for sizes up to 2^64 - 16 |
| `HeapBlocks.MallocKeeps` | kernel/src/heap.c:29-81 | the tiling is kept and exactly one block, at an unused address, comes into use |
| `HeapBlocks.MallocTakes` | kernel/src/heap.c:29-81 | with s the size rounded up to a multiple of 16: the first free block of at least s bytes is taken; one of s + 40 or more is cut to exactly s and the free bytes fall by s + 24, a smaller one is handed out whole and they fall by its size, so fewer than 40 bytes are wasted |
| `HeapBlocks.ReleaseKeeps` | kernel/src/heap.c:83-98 | the tiling is kept and exactly the freed block goes out of use |
| `HeapBlocks.ReleaseGives` | kernel/src/heap.c:83-98 | the free bytes rise by the block's size, and by 24 more when the next block is free and merged |
| `HeapBlocks.NestedRestores` | kernel/src/heap.c:29-112 | from any heap without neighbouring free blocks every well-nested sequence of allocations and frees restores the exact block list and free count |
| `HeapBlocks.CarveThenRelease` | kernel/src/heap.c:29-98 | an allocation of s bytes from a block freed at once restores the list if and only if the block had at least s + 40 bytes, or the next block is not free, or there is none |
| `HeapBlocks.ReleaseFragments` | kernel/src/heap.c:83-98 | for every block list, freeing a block leaves no neighbouring free blocks if and only if there were none and the block in front of it is in use |
| `HeapBlocks.OutOfOrderFragments` | kernel/src/heap.c:83-98 | the list that shows it: of three blocks in use the first two, freed in order, stay side by side |
| `HeapBlocks.Conservation` | kernel/src/heap.c:100-112 | free bytes, used bytes and headers add up to the region |
| `HeapDriver.Heap.constructor` | kernel/src/heap.c:20-27 | one free block covers the region |
| `HeapDriver.Heap.Kmalloc` | kernel/src/heap.c:61-81 | the header walk and split compute the first-fit allocation |
| `HeapDriver.Heap.Kfree` | kernel/src/heap.c:83-98 | the header update computes the forward-coalescing free |
| `HeapDriver.Heap.HeapFreeBytes` | kernel/src/heap.c:100-112 | the loop sums the free blocks |

## Left out

- Device drivers, firmware tables, boot and CPU mode set-up: register traffic; the disk is an array of bytes with atomic transfers, and cores have fixed, distinct indices.
- Spinlocks and interrupt flags: a lock is an owner variable, the heap, page and file-system locks make each of their calls atomic, and `thread_exit_code()` is entered with interrupts off.
- Stack contents beyond who wrote a word last: a switch writes seven words at once, the flags word that `kfree()` itself still pushes after the block is free is not counted, and blocks either coincide or do not overlap.
- Store buffers: the stores of one core take effect at once and in program order, as the source's argument from x86 store order needs.
- Liveness beyond the bound on `schedule()` calls and the absence of deadlock, real time, and the interrupt state after early returns.
- SchedulerTable.Scheduler.ThreadCreate: takes whether `kmalloc()` finds a stack as a parameter, and both panics are the failure result.
- SchedulerTable.Scheduler.CreateIdleThreads: is stated for a fresh table with a slot per core, as at boot.
- FatMount.MountReads: is for at most 255 sectors per FAT, so that no FAT entry has a number from 0xFFF8 on, and a disk that holds a cluster for every FAT entry; the rest of the driver's model assumes the same of its volume. That `kmalloc()` finds no room for the FAT is not modelled.
- The second FAT copy, which the code never writes, and crash consistency between the data, directory and FAT writes.
- FatWrite.OthersUnchanged: requires that the written name is not that of a directory and that unused root entries are at the end, as the driver does.
- FatWrite.WriteThenRead: is for names of at most 12 characters without a slash, since longer ones are split by the path code but not by the write.
- FatDriver.Driver.WriteFile: requires size plus one cluster to fit in 32 bits, so that the rounding does not wrap, and an old chain that ends.
- FatListing.ListDir: requires directory chains that end, like every read of a directory; on a chain that does not, the source loops or panics.
- The encoding of a page-table entry beyond the frame and the five bits the kernel uses, TLB behaviour, and memory above 4 GiB: entries are records, and frames are numbers.
- PageTables.CheckRange: is for ranges in the canonical low half (or wrapping ones), since the walk ignores the upper 16 address bits.
- Processes.NonInterference: observes translations everywhere and bytes in the private windows PML4[1..511]. Stores below 4 MiB are modelled where they hit a page table or a data page; other frames there, the kernel image included, have no modelled contents, nor has the framebuffer.
- Processes.HeapsInEveryRun: requires mapped segments that end below the heap start and breaks below the framebuffer window.
- UserMemory.ScreenMapped: is for a framebuffer whose window stays in the canonical low half.
- ElfProcess.LoadedElf: requires the same of the segments as LoadedImage, stated for the header fields.
- ElfImage.LoadedImage: requires segments in the canonical low half whose page ranges are disjoint from each other and from the stack page, since a second mapping replaces the first. Reads past the file give a byte from the memory there; that they may fault is not modelled.
- PageBitmap.Pmm.Init: requires page-aligned, disjoint usable descriptors; the bitmap's own storage is a separate array.
- HeapDriver.Heap.Kfree: is for NULL and live pointers; anything else is undefined in the source.
- The other system calls, the network stack, keyboard, mouse, console, fonts and the user programs: easy or interface code.
