# Operating-systems coursework, verified

A Dafny model, with proofs, of four C programs: an intersection monitor with eight threads, a demand
pager with swap and three replacement policies, a set of tools that edit and repair an ext2 image, and
a kernel module that intercepts system calls.  `dafny verify dfyconfig.toml` checks the whole project.

## How it is laid out

**Intersection** (`Paths`, `Lanes`, `Intersection`, `IntersectionSafety`, `IntersectionLiveness`).
Paths and lanes are arrays and objects mutated as in the program.  The monitor itself is a step relation:
one program counter per thread, mutex owners, and sleeping threads in their program counters, over every
interleaving and every schedule of cars.  A run may wake a sleeper for no reason; termination is proved
for runs without such wakeups, safety for all.

**Pager** (`PagerModel`, `PagerContents`, `PagerRuns`, `FlatMemory`, `PageLives`, `SwapSlots` on values; `LeastRecentlyUsed`,
`Belady`, `LruCompletes`, `Policies`, `FifoOrder`, `PolicyRuns`, `ClockHistory` for the policies; `LruList`, `Bitmaps`,
`FlagWords`, `Simulator` in place).  What a policy decides is an input of the model, so the general results
hold for any policy that returns a frame; FIFO, the clock and LRU are then instances.  `Simulator.Sim` is
the running program: a two-level page table of entry objects shared with the coremap, flag words, a
word-packed swap bitmap and a doubly linked recency list, each method tied to the function it carries out.
`PagerModel.Load` has a parameter `keep`: false is the program, true a variant that leaves PG_ONSWAP set on
page-in.

**ext2** (`DirBlocks`, `DirEdits`, `DirWalks` for directory blocks as bytes; `ByteMaps` for the bitmaps;
`Ext2Model`, `Undelete`, `CopyIn`, `CopyRemove`, `Mkdir`, `NewDirectory`, `AllocationRuns`, `CommandRuns`,
`LastName`, `UntypedEntries` for the image on values, `SmallImage` and `FailingRuns` for concrete sessions that go wrong, `Ext2Disk` in place; `Repair`,
`RepairOrder`, `RepairRuns`, `RepairCounts`, `TypesAgree`, `RepairConsistent`, `RepairDisk` for the consistency
tool).  The disk is structured: bitmaps, counters, inodes and blocks do not alias, and a directory block is
passed along with the image.  Counters have their 32 and 16 bits.

**Interceptor** (`Interceptor`, `Monitoring`, `KernelModule`).  Each command runs under the table lock, so a run is a
sequence of whole commands and process exits.

`Words`, `Counting` and `Options` are shared: C's bit operators on natural numbers, occurrence counts, and a
value that may be missing.

## What the proofs show about the code

- A page that was read back from swap and is then evicted clean is lost: page-in clears PG_ONSWAP, and the
  next touch fills the page with zeros.  `FlatMemory.VersionExactly` says exactly which pages keep their
  version, `CleanEvictionLosesWrite` gives a trace that loses a write.
- LRU dereferences a null pointer exactly when the first two references are to the same page
  (`LruCompletes.CompletesExactly`).
- `ext2_cp` onto a name that exists does not stop: it splits the first entry of the block and cuts off all
  others (`DirWalks.CpInsertExactly`).
- `ext2_rm` of the first entry of a block frees the inode but leaves the entry (`DirWalks.RmFirstKeeps`).
- `ext2_restore` revives an inode whose link count is not 0 without marking its blocks, marks a block twice
  that a stale indirect block lists twice, and lowers the counters for an inode that is not free
  (`AllocationRuns.RestoreKeepsExactly`; `FailingRuns.RestoreMarksTwice` is a session of commands).
- `ext2_restore` writes to the directory before it finds that it must give up: the deleted entry is visible
  again.  `ext2_rm` never asks whether an inode is live, so removing that name then frees blocks that belong to
  another file (`AllocationRuns.RemoveKeepsExactly`, `CommandRuns.FailedRestoreThenRemove`;
  `FailingRuns.RemoveAfterFailedRestore` is a session).
- `ext2_mkdir` cuts the parent's last entry before it looks for an inode, and leaves it cut when there is none:
  deleted entries behind it are visible again, or the directory no longer adds up to its block and the next
  walk never ends (`Mkdir.MkdirExactly`, `MkdirShows`, `MkdirStops`; `FailingRuns.MkdirCutsShort` is a session).
- A directory that grows by a block marks the block and never counts it (`AllocationRuns.GrowthKeepsExactly`).
- `ext2_mkdir` without a free block leaves a live inode that still lists the first block of the file that had
  the inode before (`AllocationRuns.MakeDirExitsExactly`).
- `ext2_restore` of a removed name of an empty file that lives on adds two links for the one name
  (`LastName.RestoresLinked`); `ext2_rm` of a name of unknown type leaves its inode and blocks taken for ever
  (`UntypedEntries.RmTakesNameOnly`).
- The consistency tool tests the wrong bits for the blocks that an indirect block lists, and looks only at the
  first name of an inode (`RepairConsistent.IndirectMisread`, `RepairCounts.OthersKeepType`).
- The consistency tool starts its list of inodes with an uninitialised element; a second run is idle unless
  that element held the number of an inode in the first run (`RepairRuns.SecondRun`).
- The interceptor's comments promise -EBUSY only for a pid already monitored and -EINVAL for releasing a call
  that is not intercepted; the code refuses any second pid, and answers -EBUSY.  The model follows the code.
- A start command that fails for want of memory blocks monitoring of that call (`Interceptor.FailedStartBlocks`).

## Model

| member | source | states |
|---|---|---|
| `Paths.PathListIsLockOrder` | Synchronization/cars.c:288-335 | the list of a path names exactly the quadrants the turn crosses (right turn one, straight two, left three, u-turn four), in strictly increasing lock order with -1 in every unused slot at the end, for all 16 pairs of directions |
| `Paths.SortedFormSorts` | Synchronization/cars.c:340-354 | the passes of the selection sort yield an ascending permutation of any list |
| `Paths.PlaceLeast` | Synchronization/cars.c:345-353 | one pass in place: the least element from i on changes places with element i and nothing else moves |
| `Paths.ReplacePlaceholders` | Synchronization/cars.c:355-359 | every 10 becomes -1 in place and no other element changes |
| `Paths.SortIncreasingOrder` | Synchronization/cars.c:340-360 | the array ends up as its sorted form with 10 replaced by -1 |
| `Paths.SortedPath` | Synchronization/cars.c:302-335 | sorting what the four branches fill in gives the path list for every pair of directions |
| `Paths.ComputePath` | Synchronization/cars.c:288-335 | a fresh array holding the path list of the two directions |
| `Lanes.LaneState.AddCarEnqueues` | Synchronization/cars.c:127-158 | adding a car appends the first pending car to the queue the ring buffer holds, also when the tail wraps |
| `Lanes.LaneState.TakeCarDequeues` | Synchronization/cars.c:203-215 | taking a car removes the head of that queue, also when the head wraps |
| `Lanes.LaneState.DeliverKeepsQueue` | Synchronization/cars.c:241-243 | putting a car on the exit list leaves the ring buffer's queue as it is |
| `Lanes.Lane.constructor` | Synchronization/cars.c:69-99 | a lane starts with an empty ring of fixed length, nothing pending, nothing delivered and all counts 0 |
| `Lanes.Lane.Schedule` | Synchronization/cars.c:40-44 | one schedule line puts its car at the head of the pending list and counts it |
| `Lanes.ParseSchedule` | Synchronization/cars.c:24-47 | after parsing, each lane's pending list is the schedule's cars of that entry direction, last line first, and inc is their number |
| `Lanes.Lane.AddCar` | Synchronization/cars.c:133-157 | the lane's whole new state after a car is put into the buffer in place |
| `Lanes.Lane.TakeCar` | Synchronization/cars.c:198-215 | returns the car at the head; the lane's whole new state |
| `Lanes.Lane.Deliver` | Synchronization/cars.c:241-243 | the exit lane's whole new state with the car at the head of out_cars |
| `IntersectionSafety.NextKeepsInv` | Synchronization/cars.c:111-259 | every step of every thread (4 arrival, 4 crossing) keeps the invariant: ring buffers sound, passed + in_buf + pending = inc, each mutex owned exactly by the thread whose program counter says so, and pending, buffered, crossing and logged cars of a lane make up its schedule in order |
| `IntersectionSafety.SpuriousWakeKeepsInv` | Synchronization/cars.c:129-132 | so does a spurious wakeup from either condition variable |
| `IntersectionSafety.RunInv` | Synchronization/cars.c:111-259 | the invariant holds in every state reachable under any interleaving, spurious wakeups included |
| `IntersectionLiveness.HoldsItsPath` | Synchronization/cars.c:231-256 | a car in the intersection holds a quadrant lock if and only if its turn crosses that quadrant |
| `IntersectionLiveness.NoCrash` | Synchronization/cars.c:231-256 | two cars in the intersection at the same time share no quadrant, in every reachable state |
| `IntersectionLiveness.QuadChainEnds` | Synchronization/cars.c:233-237 | following the owners of the quadrants waited for leads through ever higher quadrants to a thread that can run |
| `IntersectionLiveness.SleepingLaneIsDone` | Synchronization/cars.c:111-132 | a lane whose two threads are asleep or finished is finished: no wakeup is lost |
| `IntersectionLiveness.NoDeadlock` | Synchronization/cars.c:111-259 | in every reachable state with an unfinished thread some thread can take a step, without the help of a spurious wakeup |
| `IntersectionLiveness.Terminates` | Synchronization/cars.c:111-259 | without spurious wakeups no run takes more than 27 steps per car and 24 more, and a run that cannot go on has finished all eight threads |
| `IntersectionLiveness.CarsAreConserved` | Synchronization/cars.c:127-259 | in every reachable state the copies of a car add up over pending, buffered, crossing and the exit list of its own exit lane |
| `IntersectionLiveness.LaneOrder` | Synchronization/cars.c:183-259 | the cars of one entry lane that have crossed are a prefix of that lane's initial list, in its order |
| `IntersectionLiveness.AllDelivered` | Synchronization/cars.c:183-259 | at the end the cars of each lane have crossed completely and in order, and each is in the exit list of its own out_dir as often as scheduled |
| `PagerModel.FreeFrame` | Virtual Memory (Page Tables and Replacement Algorithms)/pagetable.c:30-38 | the lowest frame not in use, or the number of frames when all are |
| `PagerModel.FreeSlot` | Virtual Memory (Page Tables and Replacement Algorithms)/swap.c:64-87 | the lowest clear index of the bitmap, or its size when all are set |
| `PagerModel.EvictOk` | Virtual Memory (Page Tables and Replacement Algorithms)/pagetable.c:40-70 | eviction keeps page tables, coremap and swap offsets consistent: a valid entry and its frame name each other, dirty implies valid, offsets are those of used slots and no two pages share one |
| `PagerModel.MakeRoomOk` | Virtual Memory (Page Tables and Replacement Algorithms)/pagetable.c:27-77 | after allocate_frame's search and eviction the frame it returns is free and the tables are consistent, for any policy's choice |
| `PagerModel.LoadOk` | Virtual Memory (Page Tables and Replacement Algorithms)/pagetable.c:192-219 | filling the frame, from zero or from swap, keeps the tables consistent |
| `PagerModel.TouchOk` | Virtual Memory (Page Tables and Replacement Algorithms)/pagetable.c:223-234 | setting valid, reference and dirty bits keeps the tables consistent |
| `PagerModel.Access` | Virtual Memory (Page Tables and Replacement Algorithms)/sim.c:52-63 | one reference keeps the tables consistent and the number of frames, whenever no assertion of the swap code fails |
| `PagerContents.EvictDirtyContent` | Virtual Memory (Page Tables and Replacement Algorithms)/pagetable.c:49-60 | a dirty eviction, with room on swap, changes no page's contents |
| `PagerContents.EvictCleanContent` | Virtual Memory (Page Tables and Replacement Algorithms)/pagetable.c:62-70 | a clean eviction changes no other page; it loses the victim's contents where page-in clears the on-swap flag and keeps them where it does not |
| `PagerContents.LoadContent` | Virtual Memory (Page Tables and Replacement Algorithms)/pagetable.c:199-216 | page-in leaves every page's contents alone; a page without contents starts as version 0 with its address recorded |
| `PagerContents.AccessContent` | Virtual Memory (Page Tables and Replacement Algorithms)/sim.c:52-63 | one reference counts a write on its own page, may lose a clean victim, changes no other page, and reports an error exactly if the recorded address differs |
| `PagerRuns.NeverAborts` | Virtual Memory (Page Tables and Replacement Algorithms)/swap.c:187-256 | with a swap slot for every distinct page no trace and no policy makes an assertion of the swap code fail |
| `PagerRuns.EnoughSwap` | Virtual Memory (Page Tables and Replacement Algorithms)/swap.c:222-235 | while no more pages have been touched than there are slots, page-out finds a slot for every page |
| `PagerRuns.ReplayInv` | Virtual Memory (Page Tables and Replacement Algorithms)/sim.c:66-83 | after every trace under every policy: tables consistent, used slots are exactly those owned by pages, entries exist for exactly the pages touched, counters add up |
| `PagerRuns.CoremapInverse` | Virtual Memory (Page Tables and Replacement Algorithms)/pagetable.c:27-77 | after every trace a frame holds page p if and only if p's valid entry names it; hits + misses = references; misses = clean + dirty evictions + frames in use; frames fill lowest first |
| `FlatMemory.AddressCheckPasses` | Virtual Memory (Page Tables and Replacement Algorithms)/sim.c:54-56 | on every trace of page-aligned addresses, for any policy and enough swap, the address check never fails |
| `FlatMemory.AddressErrorsExactly` | Virtual Memory (Page Tables and Replacement Algorithms)/sim.c:54-56 | on every trace and for every policy the check reports exactly as many errors as there are lines naming their page by another address than the one remembered since its first reference or its last clean eviction |
| `FlatMemory.VersionExactly` | Virtual Memory (Page Tables and Replacement Algorithms)/pagetable.c:192-219 | as coded, a page's version equals its number of S/M references if and only if it is not among the pages evicted clean after a write; otherwise it falls short |
| `FlatMemory.FlatWithoutCleanEvictions` | Virtual Memory (Page Tables and Replacement Algorithms)/sim.c:58-61 | on every run with evict_clean_count 0 each page's version is its number of S/M references |
| `FlatMemory.FlatVariant` | Virtual Memory (Page Tables and Replacement Algorithms)/pagetable.c:208-216 | in the variant in which page-in keeps PG_ONSWAP, versions equal S/M references on every run |
| `FlatMemory.CleanEvictionLosesWrite` | Virtual Memory (Page Tables and Replacement Algorithms)/pagetable.c:199-216 | there is a trace, with swap to spare, on which the code as it stands forgets the only write to a page |
| `LeastRecentlyUsed.AccessFrames` | Virtual Memory (Page Tables and Replacement Algorithms)/pagetable.c:159-240 | the frame a page ends up in: its own on a hit, the lowest free one, or the victim's; the other frames keep their pages |
| `LeastRecentlyUsed.LruAccessLists` | Virtual Memory (Page Tables and Replacement Algorithms)/lru.c:41-134 | the recency list always holds exactly the frames in use, once each |
| `Belady.StackTheorem` | Virtual Memory (Page Tables and Replacement Algorithms)/lru.c:25-134 | after any trace under LRU the resident pages, in list order, are exactly the min(m, distinct) most recently used distinct pages |
| `Belady.ResidentsAreLatest` | Virtual Memory (Page Tables and Replacement Algorithms)/lru.c:25-134 | a page is resident if and only if it is among the m most recently used distinct pages |
| `Belady.HitExactly` | Virtual Memory (Page Tables and Replacement Algorithms)/lru.c:25-134 | a reference hits if and only if its page is among them |
| `Belady.NoBeladyAnomaly` | Virtual Memory (Page Tables and Replacement Algorithms)/lru.c:25-134 | with more frames every page resident with fewer is resident and the hit count is at least as high, after every trace |
| `LruCompletes.LruIsReplay` | Virtual Memory (Page Tables and Replacement Algorithms)/lru.c:25-134 | every LRU run is a run of the pager in which LRU made the choices |
| `LruCompletes.CompletesExactly` | Virtual Memory (Page Tables and Replacement Algorithms)/lru.c:95-134 | with two or more frames and enough swap, in_list's null pointer is dereferenced if and only if the first two references are to the same page |
| `LruList.List.Evict` | Virtual Memory (Page Tables and Replacement Algorithms)/lru.c:25-35 | the head leaves the linked list and its frame, the least recently referenced, is returned; links stay mutually consistent |
| `LruList.List.Unlink` | Virtual Memory (Page Tables and Replacement Algorithms)/lru.c:99-124 | the element is cut out wherever it stands (head, middle, tail) and both neighbours are relinked |
| `LruList.List.Append` | Virtual Memory (Page Tables and Replacement Algorithms)/lru.c:125-128 | the loose element is linked behind the last one |
| `LruList.List.InList` | Virtual Memory (Page Tables and Replacement Algorithms)/lru.c:95-134 | reports whether the frame is listed; if so its element, and no other, moves to the end |
| `LruList.List.Ref` | Virtual Memory (Page Tables and Replacement Algorithms)/lru.c:41-86 | the frame becomes the most recent one, whether the list was empty, had one element or many |
| `Bitmaps.Bitmap.constructor` | Virtual Memory (Page Tables and Replacement Algorithms)/swap.c:28-62 | all indices below nbits are clear and the leftover bits of the last word are set |
| `Bitmaps.Bitmap.Alloc` | Virtual Memory (Page Tables and Replacement Algorithms)/swap.c:64-87 | sets and returns the lowest clear index, fails only if there is none; both assertions hold |
| `Bitmaps.Bitmap.FirstClear` | Virtual Memory (Page Tables and Replacement Algorithms)/swap.c:73-83 | the lowest clear bit of a word that is not all ones, so the assertion behind the loop is not reached |
| `Bitmaps.Bitmap.MarkLeftover` | Virtual Memory (Page Tables and Replacement Algorithms)/swap.c:49-58 | exactly the bits from the given one on are set in the last word |
| `Bitmaps.Bitmap.Mark` | Virtual Memory (Page Tables and Replacement Algorithms)/swap.c:100-111 | sets that index and no other |
| `Bitmaps.Bitmap.Unmark` | Virtual Memory (Page Tables and Replacement Algorithms)/swap.c:113-124 | clears that index and no other |
| `Bitmaps.Bitmap.IsSet` | Virtual Memory (Page Tables and Replacement Algorithms)/swap.c:127-135 | reads that index |
| `Bitmaps.LowestFree` | Virtual Memory (Page Tables and Replacement Algorithms)/swap.c:71-81 | the bit the two loops stop at is below nbits and is the lowest free index |
| `FlagWords.FlagTests` | Virtual Memory (Page Tables and Replacement Algorithms)/pagetable.c:49-54 | the masked comparisons of the frame word read the four flags, and the shift the frame number |
| `FlagWords.SetFlags` | Virtual Memory (Page Tables and Replacement Algorithms)/pagetable.c:223-230 | or-ing a flag into the word sets that flag of the entry and nothing else |
| `FlagWords.ClearFlags` | Virtual Memory (Page Tables and Replacement Algorithms)/pagetable.c:66-70 | and-ing with the complement clears that flag and nothing else |
| `Policies.ClockIsExact` | Virtual Memory (Page Tables and Replacement Algorithms)/clock.c:20-44 | the clock scan ends within memsize skips at the first frame, cyclically from the hand, whose reference bit was clear, or at the hand if none was |
| `Policies.FirstClearIsUnique` | Virtual Memory (Page Tables and Replacement Algorithms)/clock.c:20-44 | there is only one such frame |
| `Policies.LruIsPolicy` | Virtual Memory (Page Tables and Replacement Algorithms)/lru.c:25-134 | the LRU pager is the general pager driven by the LRU policy |
| `FifoOrder.HandIsOldest` | Virtual Memory (Page Tables and Replacement Algorithms)/fifo.c:21-25 | on every trace, whenever all frames are in use, the frame the hand takes next holds the page resident longest and the others follow in load order |
| `FifoOrder.AccessKeepsLoadOrder` | Virtual Memory (Page Tables and Replacement Algorithms)/fifo.c:21-25 | every reference keeps hand and load order together |
| `PolicyRuns.PolicyRunIsReplay` | Virtual Memory (Page Tables and Replacement Algorithms)/sim.c:66-83 | a run under FIFO, clock or LRU is a replay with the policy's choices, so the results for arbitrary policies hold of it |
| `PolicyRuns.FifoAndClockComplete` | Virtual Memory (Page Tables and Replacement Algorithms)/fifo.c:21-25 | FIFO and the clock get through every trace for which there is a slot per page |
| `PolicyRuns.LruRunIsPolicyRun` | Virtual Memory (Page Tables and Replacement Algorithms)/lru.c:25-134 | LRU's run in the general setting is its run in the stack theorem |
| `PolicyRuns.RunCounters` | Virtual Memory (Page Tables and Replacement Algorithms)/sim.c:52-83 | on every page-aligned trace with enough swap: no address error, hits + misses = references = trace length, misses = evictions + frames in use |
| `ClockHistory.RefBitsAfter` | Virtual Memory (Page Tables and Replacement Algorithms)/pagetable.c:223-230 | every reference, under any policy, sets the reference bit of the frame its page is in; the bits of the other frames stay, but for those the policy clears on its way to a victim |
| `ClockHistory.BitsTellHistory` | Virtual Memory (Page Tables and Replacement Algorithms)/clock.c:20-44 | on every trace under the clock a frame's bit is set if and only if a line has referenced the frame and the hand has not passed it since |
| `ClockHistory.SecondChance` | Virtual Memory (Page Tables and Replacement Algorithms)/clock.c:20-44 | whenever the clock evicts, every frame before the victim on the hand's way has been referenced since the hand last passed it; the victim has not, unless all have and it is the frame the hand stood at; the new page is in that frame |
| `ClockHistory.HandRests` | Virtual Memory (Page Tables and Replacement Algorithms)/clock.c:20-44 | a line that does not evict leaves the hand where it is |
| `ClockHistory.ClockRuns` | Virtual Memory (Page Tables and Replacement Algorithms)/sim.c:66-83 | with a swap slot for every page the clock gets through every line of every trace, so these hold throughout |
| `PageLives.FlagsTellLife` | Virtual Memory (Page Tables and Replacement Algorithms)/pagetable.c:27-234 | on every trace and for every policy a page is valid, dirty or on swap exactly as its life says, told from its references and evictions alone, and as many dirty and clean evictions are counted as pages were evicted changed and unchanged since they were loaded |
| `SwapSlots.AbortsExactly` | Virtual Memory (Page Tables and Replacement Algorithms)/swap.c:187-256 | for every trace, policy and size of the swap file an assertion of the swap code fails if and only if a line is to a page that was evicted changed when the swap file was full and had no slot from before |
| `Simulator.InitialRuns` | Virtual Memory (Page Tables and Replacement Algorithms)/sim.c:21-27 | from the states the policies start in, the run is the one that the results on FIFO order, the clock's bits and the LRU stack are about |
| `Simulator.InitSecondLevel` | Virtual Memory (Page Tables and Replacement Algorithms)/pagetable.c:99-122 | 4096 new entries, all different objects, each with word 0 and invalid swap offset |
| `Simulator.Sim.constructor` | Virtual Memory (Page Tables and Replacement Algorithms)/sim.c:119-148 | an empty directory and coremap, a clear swap bitmap, zero counters and the policy's initial state |
| `Simulator.Sim.Lookup` | Virtual Memory (Page Tables and Replacement Algorithms)/pagetable.c:159-181 | the entry of the page, its second-level table created on first use; entries in use keep their identity and value |
| `Simulator.Sim.PageOut` | Virtual Memory (Page Tables and Replacement Algorithms)/swap.c:222-256 | the frame's page is in its own slot, or in the lowest free one, whose offset is returned; invalid when there is none |
| `Simulator.Sim.PageIn` | Virtual Memory (Page Tables and Replacement Algorithms)/swap.c:187-213 | the frame holds what the slot holds |
| `Simulator.Sim.InitFrame` | Virtual Memory (Page Tables and Replacement Algorithms)/pagetable.c:135-144 | the frame is zeroed and records the address |
| `Simulator.Sim.FifoEvict` | Virtual Memory (Page Tables and Replacement Algorithms)/fifo.c:21-25 | the FIFO decision and its new hand |
| `Simulator.Sim.TestAndClear` | Virtual Memory (Page Tables and Replacement Algorithms)/clock.c:26-38 | whether the page in the frame has its reference bit; if so that bit is cleared and no other entry changes |
| `Simulator.Sim.ClockEvict` | Virtual Memory (Page Tables and Replacement Algorithms)/clock.c:20-44 | the clock decision and its new hand; exactly the skipped frames lose their reference bit |
| `Simulator.Sim.LruEvict` | Virtual Memory (Page Tables and Replacement Algorithms)/lru.c:25-35 | the LRU decision, on the linked list |
| `Simulator.Sim.EvictFcn` | Virtual Memory (Page Tables and Replacement Algorithms)/sim.c:17-32 | whichever policy is configured decides as its specification says |
| `Simulator.Sim.Retire` | Virtual Memory (Page Tables and Replacement Algorithms)/pagetable.c:46-70 | the victim's entry, the swap file and the counters after an eviction, dirty or clean |
| `Simulator.Sim.EvictVictim` | Virtual Memory (Page Tables and Replacement Algorithms)/pagetable.c:40-70 | the whole simulator after an eviction agrees with the model |
| `Simulator.Sim.FindFree` | Virtual Memory (Page Tables and Replacement Algorithms)/pagetable.c:30-38 | the lowest frame not in use, or -1 |
| `Simulator.Sim.AllocateFrame` | Virtual Memory (Page Tables and Replacement Algorithms)/pagetable.c:27-77 | the frame is the model's, is in use for the given entry afterwards, and everything else agrees with the model |
| `Simulator.Sim.Fault` | Virtual Memory (Page Tables and Replacement Algorithms)/pagetable.c:186-219 | frame contents and entry word after a miss, from zero or from swap |
| `Simulator.Sim.MarkReferenced` | Virtual Memory (Page Tables and Replacement Algorithms)/pagetable.c:223-230 | the word of a valid, referenced entry, dirty after a write |
| `Simulator.Sim.RefFcn` | Virtual Memory (Page Tables and Replacement Algorithms)/sim.c:17-32 | the policy's state after ref_fcn |
| `Simulator.Sim.CheckAndCount` | Virtual Memory (Page Tables and Replacement Algorithms)/sim.c:54-61 | an error is counted exactly if the recorded address differs, the version goes up exactly on a write |
| `Simulator.Sim.AccessMem` | Virtual Memory (Page Tables and Replacement Algorithms)/sim.c:52-63 | one trace line takes the mutable simulator from the model's state to the model's next state, and the policy with it |
| `Simulator.Sim.ReplayTrace` | Virtual Memory (Page Tables and Replacement Algorithms)/sim.c:66-83 | replaying any trace carries out the model's run; on page-aligned traces with enough swap it ends with no address error and hits + misses = references = trace length |
| `DirBlocks.LaidOnce` | EXT 2 File System/ext2_rm.c:80-114 | the bytes of a block determine the list of entries that tile it |
| `DirBlocks.EntryThere` | EXT 2 File System/ext2_rm.c:80-114 | entry k of a tiled block is where the record lengths before it add up to, and the last ends exactly at byte 1024 |
| `DirBlocks.Padded` | EXT 2 File System/helper_functions.c:115-121 | the next multiple of 4, less than 4 above |
| `DirEdits.AddAppends` | EXT 2 File System/ext2_mkdir.c:24-56 | splitting entry k keeps the entries before it, trims it to its least size, puts the new entry behind it and fills the block exactly; what followed is gone |
| `DirEdits.AddToNewBlock` | EXT 2 File System/ext2_mkdir.c:126-129 | in a new block, where last and new entry are the same bytes, the new entry fills the block |
| `DirEdits.InitialTiled` | EXT 2 File System/helper_functions.c:309-326 | a new directory's block is tiled by its own and its parent's entry |
| `DirEdits.MergeDeletes` | EXT 2 File System/ext2_rm.c:25-26 | deleting entry k > 0 gives its room to the entry before it and leaves every other entry alone |
| `DirEdits.MergeFirst` | EXT 2 File System/ext2_rm.c:25-26 | deleting the first entry of a block changes no byte of it |
| `DirEdits.ResizeUndoesMerge` | EXT 2 File System/ext2_restore.c:38-39 | after a deletion that used the size m of the entry before, restoring with size r gives back the block byte for byte if and only if r is m |
| `DirEdits.TypeWritten` | EXT 2 File System/ext2_checker.c:141-168 | writing the type byte of entry k changes that entry's type and nothing else of the list |
| `DirEdits.AddEntry` | EXT 2 File System/ext2_mkdir.c:24-56 | the block in place after the split and the new entry's fields |
| `DirWalks.RmFinds` | EXT 2 File System/ext2_rm.c:76-115 | the remover's walk stops at the first entry with the name, knowing the size of the entry before it, or reports a directory |
| `DirWalks.RmMisses` | EXT 2 File System/ext2_rm.c:80-118 | without such an entry the walk ends exactly at the block's end |
| `DirWalks.RmDeletes` | EXT 2 File System/ext2_rm.c:80-114 | removing a file deletes exactly its entry, if that is not the first of the block |
| `DirWalks.RmFirstKeeps` | EXT 2 File System/ext2_rm.c:76-104 | removing the first entry leaves the block as it is |
| `DirWalks.RemoveEntry` | EXT 2 File System/ext2_rm.c:76-114 | the walk and the merge in place |
| `DirWalks.WalkGap` | EXT 2 File System/ext2_restore.c:146-151 | over any run of dead entries the walk adds their record lengths to last_size |
| `DirWalks.RestoreShows` | EXT 2 File System/ext2_restore.c:98-155 | wherever in a gap the walk stops, writing last_size makes that dead entry and all dead entries behind it in the gap entries of the block again |
| `DirWalks.FindDeleted` | EXT 2 File System/ext2_restore.c:98-155 | the gap walk in a loop: live entries by their least size, dead ones by record length, names by prefix |
| `DirWalks.UndeleteEntry` | EXT 2 File System/ext2_restore.c:98-155 | the gap walk and the new record length in place |
| `DirWalks.BlockRoundTrip` | EXT 2 File System/ext2_restore.c:98-155 | after removal of an entry whose predecessors are live, with any dead entries in their gaps, none of them taken for the name, the gap walk reaches it with the same last_size and the block is the same byte for byte |
| `DirWalks.MkdirInsertExactly` | EXT 2 File System/ext2_mkdir.c:95-131 | with the number of a free inode in hand a directory's entry is inserted if and only if its name is new and the last entry leaves room; the block then holds the old entries, the last trimmed, and the new one |
| `DirWalks.CpInsertExactly` | EXT 2 File System/ext2_cp.c:84-125 | a copy onto a new name inserts likewise; a copy onto an existing name puts the entry behind the first one and loses every entry after it |
| `DirWalks.CpAddsOne` | EXT 2 File System/ext2_cp.c:84-125 | a copy adds exactly one entry if and only if the name is new to the block or the block had one entry |
| `DirWalks.FindLast` | EXT 2 File System/ext2_mkdir.c:99-134 | the walk to the last entry, ending early at an entry of that name |
| `DirWalks.InsertDirectory` | EXT 2 File System/ext2_mkdir.c:95-117 | walk, fit test and split in place, for an inode number in hand |
| `DirWalks.InsertFile` | EXT 2 File System/ext2_cp.c:84-125 | the same for a file, with the fall-through for an existing name |
| `Mkdir.AddedInSteps` | EXT 2 File System/ext2_mkdir.c:27-56 | cutting the last entry and then, behind the search for an inode, writing the new one gives the block of DirEdits.AddEntry, in a new block too |
| `Mkdir.MkdirExactly` | EXT 2 File System/ext2_mkdir.c:24-131 | the whole command on a directory's block: its list of entries is as it was, or has the new entry and nothing else in addition, if and only if an inode is free, the name is taken or there is no room; without an inode the image is unchanged and nothing is made |
| `Mkdir.MkdirShows` | EXT 2 File System/ext2_mkdir.c:27-41 | in the failing case the block ends with the last entry trimmed and every deleted entry that lay in its room: these are entries again |
| `Mkdir.MkdirStops` | EXT 2 File System/ext2_mkdir.c:27-41 | in the failing case, if nothing has ever been stored behind the last entry, the walks of mkdir and of the remover for any other new name stand still at a record length of 0 |
| `NewDirectory.MakesDirectory` | EXT 2 File System/ext2_mkdir.c:35-80 | add_directory gets to its end if and only if an inode and a block are free; then the first free inode is a directory of size 1024 with 2 links and i_blocks 2, its first block is the first free one and holds exactly an entry for itself and one for the parent, the parent has one link more, all four counters are one lower, and no other inode, block or bit has changed |
| `NewDirectory.MkdirMakes` | EXT 2 File System/ext2_mkdir.c:86-139 | mkdir makes a directory if and only if the name is new, an inode is free and a block, or two if the parent's block is full; the entry in the parent's block, or in its second one, names the inode that lists itself and the parent in a block of its own |
| `NewDirectory.MkdirWithoutBlock` | EXT 2 File System/ext2_mkdir.c:58-71 | with an inode but no block the entry is there and the inode taken, listing whatever block its pointer named before |
| `NewDirectory.MkdirWithoutRoom` | EXT 2 File System/ext2_mkdir.c:118-130 | when there is no room and an inode or a block is missing: a lost second pointer, or an empty second block, or a second block with an entry for an inode without a block |
| `ByteMaps.ValidInode` | EXT 2 File System/helper_functions.c:41-48 | reads one bit of the byte |
| `ByteMaps.FreeBlock` | EXT 2 File System/helper_functions.c:50-57 | true if and only if the bit is clear |
| `ByteMaps.MakeValid` | EXT 2 File System/helper_functions.c:59-63 | sets that bit of the bitmap and no other |
| `ByteMaps.MakeInvalid` | EXT 2 File System/helper_functions.c:65-70 | clears that bit of the bitmap and no other |
| `ByteMaps.FindFreeBlock` | EXT 2 File System/helper_functions.c:156-171 | the lowest free block, whose bit is then set; -1 and no change if none is free |
| `ByteMaps.FindInvalidInode` | EXT 2 File System/helper_functions.c:140-154 | the lowest free inode number of the range, or -1 |
| `Undelete.MarkedAt` | EXT 2 File System/ext2_rm.c:37-51 | the loops over a list of blocks change exactly the bits of the listed blocks |
| `Undelete.DeleteUndelete` | EXT 2 File System/ext2_restore.c:29-87 | removing and restoring gives back both bitmaps, all four counters and the inode if and only if it was the last link of a file or any link of a symlink, its block and inode bits were set, its deletion time was 0, it has a block and its mode is not 2 |
| `Undelete.RemoveThenRestore` | EXT 2 File System/ext2_restore.c:89-158 | the two commands on a directory block, other deleted files lying in the gaps before: the whole image and every byte of the block are as before |
| `UntypedEntries.RmTakesNameOnly` | EXT 2 File System/ext2_rm.c:32-63 | removing a name of unknown type deletes the entry and nothing else: inode and blocks stay taken |
| `UntypedEntries.RestoreTakesInodeOnly` | EXT 2 File System/ext2_restore.c:41-84 | restoring one takes the inode and none of its blocks, unless it gives up; the allocation invariant is kept if and only if the inode was free and lists no block |
| `LastName.LastNameFrees` | EXT 2 File System/ext2_rm.c:28-63 | a session that removes a file's n names one by one: before the last the image is the same but for the link count, the last clears the inode's bit and exactly the bits of its blocks and raises the counters by as many |
| `LastName.RestoresLinked` | EXT 2 File System/ext2_restore.c:53-84 | restoring a removed name of a file that lives on under another gives up if the file has a block; for an empty file it adds two links, and lowers the inode counters although no inode is taken |
| `CopyIn.CopySucceeds` | EXT 2 File System/ext2_cp.c:174-179 | with consistent counters a copy succeeds if and only if one block more is free than the data needs |
| `CopyIn.LoopReaches` | EXT 2 File System/ext2_cp.c:220-278 | after i turns the loop has taken the i lowest free blocks, recorded them in order in i_block and the indirect block, and stored the data read so far in them; no other block has changed |
| `CopyIn.CopyResult` | EXT 2 File System/ext2_cp.c:198-280 | the image after a copy: pairwise different blocks that were free, one more than the data needs from 12 blocks on; i_blocks, i_size, one link; counters lowered by as many |
| `CopyIn.CopyLists` | EXT 2 File System/ext2_cp.c:229-264 | the file lists exactly the blocks taken, in order |
| `CopyIn.CopyIsFaithful` | EXT 2 File System/ext2_cp.c:216-280 | reading i_block[0..11] and then what the indirect block names, cut off at i_size, gives the source, for every size up to 268 blocks |
| `CopyIn.RemoveUndoesCopy` | EXT 2 File System/ext2_rm.c:36-56 | removing the copied file restores both bitmaps and all four counters |
| `CopyRemove.EntryGoes` | EXT 2 File System/ext2_rm.c:25-26 | the remover finds the entry a copy has just put into the block, and merging it away gives back the list of entries as it was |
| `CopyRemove.CopyThenRemove` | EXT 2 File System/ext2_cp.c:174-280 | the two commands on a directory block: in between the file reads back as the source, afterwards both bitmaps, all four counters and the directory's list of entries are as before |
| `AllocationRuns.CopyKeeps` | EXT 2 File System/ext2_cp.c:198-280 | a copy keeps the allocation invariant |
| `AllocationRuns.MakeDirKeeps` | EXT 2 File System/ext2_mkdir.c:16-84 | making a directory keeps it, whatever inode the parent is |
| `AllocationRuns.MakeDirExitsExactly` | EXT 2 File System/ext2_mkdir.c:68-71 | giving up for want of a block keeps it if and only if the block number left in the new inode has a bit and belongs to no live inode |
| `AllocationRuns.GrowthKeepsExactly` | EXT 2 File System/ext2_mkdir.c:118-130 | an mkdir that gives its directory a second block keeps it if and only if no block is free: a block found is marked and never counted |
| `AllocationRuns.RemoveKeepsExactly` | EXT 2 File System/ext2_rm.c:28-61 | a removal keeps it if and only if the inode is live or no bit is cleared: another type, or a link of several |
| `AllocationRuns.RestoreKeeps` | EXT 2 File System/ext2_restore.c:41-84 | restoring a free inode keeps it, if it lists no block or its blocks are different from each other and will be marked |
| `AllocationRuns.RestoreKeepsExactly` | EXT 2 File System/ext2_restore.c:41-84 | a restore that does not give up keeps it if and only if the inode is free and lists no block, or is a file without links or a symlink and lists no block twice |
| `AllocationRuns.DirWriteKeeps` | EXT 2 File System/ext2_mkdir.c:24-56 | rewriting a live directory's block keeps it |
| `AllocationRuns.RunsAreConsistent` | EXT 2 File System/helper_functions.c:140-171 | throughout every run of copies, directory creations, growing directories, removals, restores and directory writes, each but the copies meeting the exact condition proved for it or writing to a live directory: both pairs of free counters equal the clear bits, every block of a live inode is marked, no inode lists a block twice and no two live inodes share one |
| `CommandRuns.MkdirKeepsExactly` | EXT 2 File System/ext2_mkdir.c:86-139 | mkdir keeps it if and only if the name is taken, or there is room and the block number left in the inode passes MakeDirExitsExactly's condition should no block be free, or there is no room and no block is free |
| `CommandRuns.RestoreFinds` | EXT 2 File System/ext2_restore.c:38-47 | a restore of a dead entry that its walk reaches makes the entry visible whether or not it then gives up, and what it does to the image is what restore_file does to that inode |
| `CommandRuns.FailedRestoreShows` | EXT 2 File System/ext2_restore.c:38-47 | a restore that gives up leaves the image alone but has put the dead entry back into the directory |
| `CommandRuns.FailedRestoreThenRemove` | EXT 2 File System/ext2_rm.c:16-63 | whenever a restore of a deleted file gives up, removing the same name succeeds, frees inode and blocks a second time and leaves the image inconsistent |
| `CommandRuns.SecondOfTwo` | EXT 2 File System/ext2_restore.c:98-155 | of two neighbours deleted the second can be undeleted: the walk goes over the first in the gap, and image and directory are as between the two deletions |
| `FailingRuns.RestoreMarksTwice` | EXT 2 File System/ext2_restore.c:41-78 | a session of eight commands on image and directory block, the last a restore whose checks pass, after which a block is marked twice: two blocks are free and the counters say one |
| `FailingRuns.RemoveAfterFailedRestore` | EXT 2 File System/ext2_rm.c:28-61 | a session of seven commands, a failed restore among them, after which a block of a live file is marked free |
| `FailingRuns.MkdirCutsShort` | EXT 2 File System/ext2_mkdir.c:27-41 | a session of two copies and an mkdir that finds no inode: the image is unchanged, the root directory is cut short, and no walk for another new name comes to an end |
| `Ext2Disk.Disk.RemoveFile` | EXT 2 File System/ext2_rm.c:28-63 | the image in place after remove_file, its directory part apart |
| `Ext2Disk.Disk.FreeBlocks` | EXT 2 File System/ext2_rm.c:37-51 | its loop: the listed bits cleared and both counters raised once a block |
| `Ext2Disk.Disk.AllInvalid` | EXT 2 File System/helper_functions.c:365-384 | true if and only if no listed block's bit is set |
| `Ext2Disk.Disk.RestoreFile` | EXT 2 File System/ext2_restore.c:41-84 | the bitmaps, counters and inodes in place after restore_file; unchanged when it gives up |
| `Ext2Disk.Disk.MarkBlocks` | EXT 2 File System/ext2_restore.c:58-73 | its loop: the listed bits set, both counters lowered once a block, the deletion time reset if there is a block |
| `Ext2Disk.Disk.RmCommand` | EXT 2 File System/ext2_rm.c:16-118 | image and directory block in place after a removal |
| `Ext2Disk.Disk.RestoreCommand` | EXT 2 File System/ext2_restore.c:29-158 | image and directory block in place after a restore, the directory also when the restore gives up |
| `Ext2Disk.Disk.AllocBlock` | EXT 2 File System/helper_functions.c:156-171 | the lowest free block, marked, or -1 |
| `Ext2Disk.Disk.FindInode` | EXT 2 File System/ext2_mkdir.c:36-41 | the lowest free inode from s_first_ino + 1 on, the last one excepted, or -1 |
| `Ext2Disk.Disk.MakeDirectory` | EXT 2 File System/ext2_mkdir.c:35-80 | the image apart from the parent's directory block in place after add_directory, also when it exits: as before without a free inode, with the inode taken but no block without a free block |
| `Ext2Disk.Disk.MkdirCommand` | EXT 2 File System/ext2_mkdir.c:86-139 | image and directory block in place after mkdir, in every exit |
| `Ext2Disk.Disk.MkdirHere` | EXT 2 File System/ext2_mkdir.c:16-84 | add_directory in place with its writes to the parent's block; without a free inode the block is cut and nothing else changes |
| `Ext2Disk.Disk.MkdirInNewBlock` | EXT 2 File System/ext2_mkdir.c:118-130 | a second block for the directory with the new entry in it, or what is left when no block or no inode is found |
| `Ext2Disk.Disk.CopyTurn` | EXT 2 File System/ext2_cp.c:220-277 | one turn of the copy loop in place, with what is left of the source |
| `Ext2Disk.Disk.CopyFile` | EXT 2 File System/ext2_cp.c:174-280 | the image in place after a copy; false when there is no space |
| `Repair.CountersFixed` | EXT 2 File System/ext2_checker.c:30-118 | the counters are exact afterwards, and fixes are counted exactly if they were not |
| `Repair.TypeOf` | EXT 2 File System/ext2_checker.c:141-168 | the type asked for is a file's, a directory's or a link's exactly for modes 0x8000 to 0x8fff, 0x4000 to 0x4fff and 0xa000 to 0xafff, and unknown otherwise |
| `Repair.FixTypeKeeps` | EXT 2 File System/ext2_checker.c:129-171 | the entry's type matches the inode's mode, in the list of entries and in the bytes that it describes; a fix is counted exactly if it did not; nothing else changes |
| `Repair.FixInodeBitKeeps` | EXT 2 File System/ext2_checker.c:211-244 | the inode's bit is set, exact counters stay exact, a fix is counted exactly if it was clear |
| `Repair.FixDtimeKeeps` | EXT 2 File System/ext2_checker.c:252-268 | the deletion time is 0, a fix is counted exactly if it was not |
| `Repair.FixBitsKeeps` | EXT 2 File System/ext2_checker.c:278-345 | the bit looked up for each block number is set, exact counters stay exact, fixes are counted exactly if one was clear |
| `Repair.KeptClean` | EXT 2 File System/ext2_checker.c:384-389 | no fix undoes another: what is clean stays clean |
| `Repair.FixEntryKeeps` | EXT 2 File System/ext2_checker.c:384-389 | after the four fixes the entry is clean; they do nothing if and only if it was |
| `RepairOrder.AnyOrder` | EXT 2 File System/ext2_checker.c:385-388 | the four fixes are calls in one sum, whose order C leaves open: in any order they give the same image and the same number of fixes |
| `RepairRuns.WalkStays` | EXT 2 File System/ext2_checker.c:369-397 | no fix changes the order in which entries are visited |
| `RepairRuns.VisitsExactly` | EXT 2 File System/ext2_checker.c:369-449 | the walk visits an entry if and only if it lies in a listed block of the root or of an inode from the first non-reserved one to the last but one whose mode has the directory bit |
| `RepairRuns.RunCleans` | EXT 2 File System/ext2_checker.c:434-449 | after a run every entry visited is clean and the counters are exact |
| `RepairRuns.RunIsIdle` | EXT 2 File System/ext2_checker.c:434-449 | a run fixes nothing if and only if every entry it visits is clean, and then changes nothing |
| `RepairRuns.SecondRun` | EXT 2 File System/ext2_checker.c:347-449 | a second run fixes nothing if and only if it visits no unclean entry whose inode number the first run's uninitialised list element happened to hold |
| `RepairRuns.CheckIsIdempotent` | EXT 2 File System/ext2_checker.c:400-459 | a second run performs no fix and changes nothing, if that element names no inode of an entry or is the same in both runs |
| `RepairConsistent.CountedIsExact` | EXT 2 File System/ext2_checker.c:44-118 | counters that the other tools keep exact are exact to the consistency tool, although it counts as many bytes as there are inodes or blocks, if the bits behind the last are set |
| `RepairConsistent.NothingToRepair` | EXT 2 File System/ext2_checker.c:416-449 | on an image with the allocation invariant, whose entries have the right type and name live, undeleted inodes without an indirect block, the tool performs no fix and changes nothing |
| `RepairConsistent.IndirectMisread` | EXT 2 File System/ext2_checker.c:307-336 | on such an image an entry of a larger file is left alone if and only if the bits behind those of the blocks its indirect block lists are set, and one that entry 12 of that block names: the tool omits a subtraction there |
| `RepairCounts.FixesAreChanges` | EXT 2 File System/ext2_checker.c:400-459 | the number reported is how far the counters were off, and one for every bit set, every deletion time reset and every type corrected |
| `RepairCounts.FirstIsClean` | EXT 2 File System/ext2_checker.c:347-389 | after a run the first entry to name an inode is in order, if the unset list element does not hold that number |
| `RepairCounts.OthersKeepType` | EXT 2 File System/ext2_checker.c:347-389 | every later entry for that inode keeps its type, right or wrong |
| `TypesAgree.TypeFixIdles` | EXT 2 File System/ext2_checker.c:129-171 | the type fix does nothing if and only if the entry's type is that of the inode, or unknown where the inode is no file, directory or link |
| `TypesAgree.TypeFixed` | EXT 2 File System/ext2_checker.c:129-171 | after it the type is right in that sense, and no other entry has changed |
| `TypesAgree.CpTypes` | EXT 2 File System/ext2_cp.c:49-66 | after a copy every entry of the directory names a live inode of its type, the new one included, if they did before |
| `TypesAgree.MkdirTypes` | EXT 2 File System/ext2_mkdir.c:49-79 | the same after an mkdir that makes a directory, and of the new directory's own two entries |
| `TypesAgree.TypedSession` | EXT 2 File System/ext2_cp.c:49-66 | every entry of a directory still names a live inode of its type after every session of copies and new directories |
| `TypesAgree.TypedNeedsNoFix` | EXT 2 File System/ext2_checker.c:129-171 | the consistency tool corrects no type in such a directory |
| `RepairDisk.Tool.CountClear` | EXT 2 File System/ext2_checker.c:48-56 | the number of clear bits in the first count bytes |
| `RepairDisk.Tool.GroupCounters` | EXT 2 File System/ext2_checker.c:30-118 | counters and number of fixes in place |
| `RepairDisk.Tool.FixType` | EXT 2 File System/ext2_checker.c:129-171 | the type byte and the entry in place |
| `RepairDisk.Tool.FixInodeBit` | EXT 2 File System/ext2_checker.c:211-244 | the inode bitmap and counters in place |
| `RepairDisk.Tool.FixDtime` | EXT 2 File System/ext2_checker.c:252-268 | the inode in place |
| `RepairDisk.Tool.FixBits` | EXT 2 File System/ext2_checker.c:278-345 | the block bitmap and counters in place, over all block numbers of the inode |
| `RepairDisk.Tool.InList` | EXT 2 File System/ext2_checker.c:347-365 | whether the number was in the list; it is afterwards, appended if it was not |
| `RepairDisk.Tool.CheckBlock` | EXT 2 File System/ext2_checker.c:369-397 | the image, the list and the number of fixes after walking one inode's directory blocks |
| `RepairDisk.Tool.Check` | EXT 2 File System/ext2_checker.c:416-449 | the whole run in place: the image and number of fixes of the specification |
| `Interceptor.CommandKeeps` | Hijacking System Calls and Monitoring Processes/interceptor.c:357-588 | every command, whatever its arguments and caller, keeps: a slot holds the interceptor exactly when the call is intercepted, the row keeps what it replaced, listcount is the list's length, lists are empty unless monitored is 1, at most one pid is listed |
| `Interceptor.ExitKeeps` | Hijacking System Calls and Monitoring Processes/interceptor.c:147-176 | a process exit keeps that and leaves the pid in no list, although the loop starts at system call 1 |
| `Interceptor.RunsKeep` | Hijacking System Calls and Monitoring Processes/interceptor.c:357-588 | it holds after every sequence of commands and exits |
| `Interceptor.InterceptionIsTransparent` | Hijacking System Calls and Monitoring Processes/interceptor.c:289-304 | after every such sequence each system call is served by the same function as with nothing intercepted |
| `Interceptor.SecondDeletionIsIdle` | Hijacking System Calls and Monitoring Processes/interceptor.c:570-580 | the second del_pid_sysc of the stop command never removes anything |
| `Interceptor.ExitForgets` | Hijacking System Calls and Monitoring Processes/interceptor.c:255-268 | after a process exits its calls are logged only where everybody's are |
| `Interceptor.StartLogs` | Hijacking System Calls and Monitoring Processes/interceptor.c:447-507 | after a successful start exactly the given pid is logged, or everybody for pid 0 |
| `Interceptor.StopSilences` | Hijacking System Calls and Monitoring Processes/interceptor.c:509-585 | a stop succeeds exactly for root and pid 0, or for the listed pid by its owner or root; afterwards nobody is logged |
| `Interceptor.FailedStartBlocks` | Hijacking System Calls and Monitoring Processes/interceptor.c:497-503 | a start that fails for want of memory leaves nobody monitored, every further start refused as busy and every stop for a pid failing; only root's stop for everybody helps |
| `Monitoring.TablesRefineMonitor` | Hijacking System Calls and Monitoring Processes/interceptor.c:357-588 | after any commands and exits the tables say what a monitor says that has neither lists nor counts nor saved pointers: for each call whether it is intercepted, and whether nobody, one process or everybody is watched, or a failed start blocks it |
| `Monitoring.CommandRefines` | Hijacking System Calls and Monitoring Processes/interceptor.c:357-588 | every command, with any arguments and caller, answers with that monitor's error code and changes it as it does |
| `Monitoring.LoggedExactly` | Hijacking System Calls and Monitoring Processes/interceptor.c:289-304 | a process's call is logged if and only if the call is intercepted and it or everybody is watched |
| `Monitoring.InterceptExactly` | Hijacking System Calls and Monitoring Processes/interceptor.c:374-412 | the intercept command succeeds if and only if the caller is root and the slot does not hold the interceptor; then that slot does, its row keeps what it held, and nothing else changes |
| `Monitoring.ReleaseExactly` | Hijacking System Calls and Monitoring Processes/interceptor.c:413-446 | the release command succeeds if and only if the caller is root and the slot holds the interceptor; then that slot holds what served the call at the beginning, and nothing else changes |
| `Monitoring.StartExactly` | Hijacking System Calls and Monitoring Processes/interceptor.c:447-507 | the start command succeeds if and only if the call is intercepted and not monitored, the caller is root or owns the process, and there is memory for a process |
| `Monitoring.InterceptThenStart` | Hijacking System Calls and Monitoring Processes/interceptor.c:357-588 | root's intercept and then a start for a process both succeed on a call not yet intercepted or monitored, and then that process's calls and no other's are logged |
| `KernelModule.Module.constructor` | Hijacking System Calls and Monitoring Processes/interceptor.c:611-650 | the tables as the module sets them up |
| `KernelModule.Module.AddPidSysc` | Hijacking System Calls and Monitoring Processes/interceptor.c:96-110 | the row with the pid at the head of its list and counted, or unchanged with -ENOMEM |
| `KernelModule.Module.DelPidSysc` | Hijacking System Calls and Monitoring Processes/interceptor.c:116-141 | the row without the pid's first occurrence, monitored reset if the list became empty; -EINVAL if it was not listed |
| `KernelModule.Module.ExitGroup` | Hijacking System Calls and Monitoring Processes/interceptor.c:147-176 | every row from system call 1 on without the pid |
| `KernelModule.Module.DestroyList` | Hijacking System Calls and Monitoring Processes/interceptor.c:181-195 | an empty list, count and monitored 0 |
| `KernelModule.Module.Start` | Hijacking System Calls and Monitoring Processes/interceptor.c:447-507 | row and error code of the start command |
| `KernelModule.Module.Stop` | Hijacking System Calls and Monitoring Processes/interceptor.c:509-585 | row and error code of the stop command |
| `KernelModule.Module.MySyscall` | Hijacking System Calls and Monitoring Processes/interceptor.c:357-588 | both tables and the error code of any command |
| `KernelModule.Module.Call` | Hijacking System Calls and Monitoring Processes/interceptor.c:289-304 | which function serves a call and whether it is logged |

## Left out

- `opt.c` and `rand.c`: the first reads an uninitialised variable and may return a page number as a frame; the second has nothing to prove.
- Trace and schedule text, getopt, printing, malloc failure outside add_pid_sysc, mmap, exit codes and path splitting.
- The files behind swap: the swap file is an array of pages, and lseek, read and write do not fail.
- Memory that the source leaves uninitialised (physmem, the swap file) starts as zeroed pages; no frame or slot is read before it is written.
- A simulated page is a record of version and recorded address; int overflow of the version counter is not modelled.
- Word: a frame word is a natural number, so frames above 2^20, whose number would not fit beside the flags, behave as on an unbounded word.
- Simulator.Sim.CheckAndCount: counts the reference at the end of the access, where the code counts it inside find_physpage; nothing reads the counter in between.
- IntersectionLiveness.Terminates: only for runs without spurious wakeups, since arbitrarily many of them can delay a waiting thread; scheduler fairness is not modelled.
- Cars in the intersection are values; their allocation and the list nodes are not modelled.
- `ext2_ln.c`, the bonus tools, `readimage.c`, `ext2_testpointer.c` and the corruptor and dump programs.
- Directories of more than one block: the remover's loop bound `i_blocks - 1` reads past the block list there, so the walks are over one block. What mkdir does when that block is full is modelled (`Mkdir.MkdirInNewBlock`), commands on the directory of two blocks are not; nor is a copy into a full directory block.
- DirWalks.RmFinds: one directory block; paths and the recursion into subdirectories are not modelled.
- ByteMaps.FindFreeBlock: starts at block 1; the source's iteration for block 0 shifts by -1, which C leaves undefined.
- Names are byte sequences of length name_len: the terminator strcpy writes behind a name and comparisons of unterminated names are not modelled.
- Ext2Disk.Disk.CopyTurn: stops when no block is free, where the source goes on with block number -1; `CopyIn.CopySucceeds` shows that with consistent counters this does not happen.
- Ext2Disk.Disk.CopyFile: stops there likewise, and takes the inode the search has found; the source does not test for -1 there and goes on with bit -2. Sizes are up to 268 blocks, beyond which the source writes past the indirect block.
- Ext2Disk.Disk.MakeDirectory: the parent's directory block is in `MkdirCommand`; bg_used_dirs_count and the times other than i_dtime are not modelled.
- AllocationRuns.RunsAreConsistent: a removal, a restore, a directory creation or a growing directory takes part if it meets the condition of `RemoveKeepsExactly`, `RestoreKeepsExactly`, `MakeDirExitsExactly` or `GrowthKeepsExactly`, outside which it breaks the invariant; a copy takes part if its directory does not grow. The image has at most 65535 blocks and inodes, so that the 16-bit group counters can hold the counts.
- Mkdir.MkdirStops: a walk that the C loop never leaves is `Broken` or `NoProgress` in the model.
- Undelete.RemoveThenRestore: the file is not first in its block, and the room behind each entry before it, beyond that entry's least size, is filled with dead entries exactly, because the gap walk steps over live entries by their least size.
- RepairDisk.Tool: a directory block is kept twice, as bytes and as the list of entries that tile them, and every fix keeps the two in step; no indirect block is a directory's block, block numbers and inode numbers are in range, and each bitmap is one block.
- RepairConsistent.NothingToRepair: not for files with an indirect block; `IndirectMisread` says what the tool does at these.
- Module loading past the tables' end (the initialising loop runs one entry too far), unloading, page permissions and credentials of the interceptor; a caller's rights and the existence of a pid are inputs.
