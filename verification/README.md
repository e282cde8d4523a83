# january_os: verified models

A Dafny model of eight parts of january_os, a Rust operating system, and proofs
of what each of them is for.  `dafny verify dfyconfig.toml` checks everything.

| part | files |
|---|---|
| boot page tables (4 and 5 levels) | `PageTables`, `BootPaging`, `BootLayout`, `BootSetup` |
| B-tree | `SortedItems`, `BTreeNode`, `BTreeInsert`, `BTreeRemove`, `BTreeMap`, `BTreeEdges`, `BTreeIter`, `BTree`, `BTreeExamples` |
| interval tree on the B-tree | `Intervals`, `MapleTree` |
| file descriptors and pipes | `PipeModel`, `PipeRuns`, `FsState` |
| barrier, reader-writer lock, one-time initialisation | `Barrier`, `RwLock`, `Once` |
| xHCI rings | `TrbRing`, `EventRing` |
| initramfs archives (cpio "newc") | `Texts`, `CpioFormat`, `Cpio` |
| paths and mounts | `Paths`, `Mounts` |
| LRU cache | `LruCache` |

How the parts are modelled:

- **Page tables.** Memory maps page addresses to 512 entries, and `Walk` is the
  processor's walk ("4-Level Paging and 5-Level Paging", section 4.5 of the
  Intel SDM, Volume 3A).  `Builder` is the bump allocator with the map steps; a
  ghost map gives each table its level and the slot of the address space it
  translates, which makes the tables a tree.
- **B-tree.** Nodes are values; `Flat` is the in-order item sequence, and the
  map a tree stands for is `Contents(Flat(root))`.  `Ordered` (sorted, equal
  depth, one child more than keys, at most 15 keys, internal nodes below the
  root at least 7) is kept by insertions that do not collide and removals that
  do not panic; so is `Reach`, which adds 7 keys in the first and in the last
  leaf below an internal root.  `Textbook` has 7 keys in every leaf below the
  root and a key in an internal root; removals do not keep it.
- **Interval tree.** An object that holds a B-tree object.  Every operation says
  exactly when a removal in it panics.
- **Descriptors and pipes.** `FsState` holds the maps of the source; `View`
  adds, per pipe, the bytes ever written and ever read.  A run starts without
  descriptors and pipes and makes steps of nine kinds; every method of
  `FsState` makes such a step.  A search for a descriptor that does not end is
  the outcome `Hangs`.
- **Locks.** Any number of threads; each atomic access is one step,
  sequentially consistent; a weak compare-and-exchange may fail spuriously.
- **xHCI.** Each store of the driver and each look of the controller is one
  step (sections 4.9.2 to 4.9.4 of the xHCI specification).
- **Archives and paths.** Text is a sequence of bytes (UTF-8).
- **LRU cache.** Heap nodes with `prev` and `next`, and an index map.

## Where the code does not meet the plain property

The model follows the code; these are proved with their exact conditions.

- Insert stores a key twice when it is the median (index 7) of a full node
  below the root, because equality is not looked at again after the split
  (`InsertIsUpdateIff`, `OverwriteExample`).  Absent keys are safe.
- Remove panics exactly when the root is internal without a key over a child
  that needs repair, or when the neighbour that should replace a key lies in an
  empty leaf (`RemoveIsRemovalIff`).  Neither happens to a textbook tree, but
  removals do not keep trees textbook: from one textbook tree the root's key can
  be removed seven times and not an eighth time (`StrandedExample`; in general
  `RepeatedRemovalPanics`), and from another, eight removals of absent keys
  leave a tree from which nothing can be removed (`StarvedExample`).  Without
  removals of absent keys the second kind never arises (`NeverStarves`).
- `find_gap` answers wrongly exactly when the window is shorter than the size
  and the first interval starts at or after `start + size`, or when that sum
  wraps around to the first interval's start or below while the interval starts
  before the window (`FindGap`, `GapOverrunExample`).  With overflow checks the
  sum panics instead.
- `update_end` loses the entry exactly when the new end is not beyond its start
  (`UpdateEnd`, `UpdateEndExample`).
- `poll` describes the terminal, not the pipe, on descriptors 0 to 2
  (`PollPredictsRead`, `PollPredictsWrite`, `PollExample`).
- The search for a descriptor never ends when every number from the starting
  point to the largest `i32` is taken; `pipe2` hands out one number for both
  ends exactly when the read end gets the largest `i32`, and a pipe number twice
  once the 64-bit counter is at its end (`Pipe2`).
- Reference counts of a pipe saturate: `dup` and `dup2` keep the count equal to
  the number of descriptors exactly when it is below the largest 32-bit number.
- A node named like the trailer ends the archive early (`RoundTrip`,
  `TrailerExample`), and a file of 4 GiB or more does not come back whole
  (`ReadWritten`).
- The page-table pool is one page short for a kernel one byte over 239 MiB with
  a full direct map and 5 levels (`PoolSharp`).

## Model

| member | source | states |
|---|---|---|
| `PageTables.WalkPasses` | boot/x86_64/src/paging.rs:96-122 | In a table tree the hardware walk of an address goes through the table that stands for it at every level where there is one |
| `PageTables.GrowTree` | boot/x86_64/src/paging.rs:107-122 | Linking a fresh zeroed page at an empty entry keeps the tables a tree: one place a table, one parent a table, no page used twice |
| `PageTables.GrowWalk` | boot/x86_64/src/paging.rs:107-122 | and changes the translation of no address |
| `PageTables.LeafTree` | boot/x86_64/src/paging.rs:140-145 | Writing a 4 KiB or 1 GiB frame entry keeps the tree, without the tables that were below the entry |
| `PageTables.LeafMaps` | boot/x86_64/src/paging.rs:165-168 | and sends exactly the entry's region to the frame, leaving every other address as it was |
| `PageTables.IndexOfLow` | boot/x86_64/src/paging.rs:96-100 | The table index of a 64-bit address at every level depends only on its low 48 or 57 bits |
| `BootPaging.Builder.AllocPage` | boot/x86_64/src/paging.rs:84-93 | A page is handed out zeroed, once, and only while the pool lasts; nothing outside the pool is written |
| `BootPaging.Builder.EnsureNextTable` | boot/x86_64/src/paging.rs:107-122 | With no huge leaf at the entry: the table below it, made if missing, with the tree and all translations kept; None exactly if a page is needed and the pool is used up |
| `BootPaging.Builder.Map1GPage` | boot/x86_64/src/paging.rs:124-146 | Succeeds exactly if the missing tables fit in the pool; then the gigabyte goes to the frame, whatever tables were below its entry, and every other address translates as before; on failure all do |
| `BootPaging.Builder.Map4KPage` | boot/x86_64/src/paging.rs:148-169 | The same for a 4 KiB page, given that no 1 GiB page covers it |
| `BootSetup.KernelNotHuge` | boot/x86_64/src/paging.rs:221-276 | That precondition holds for every kernel page while the tables are built |
| `BootSetup.MapIdentity` | boot/x86_64/src/paging.rs:204-219 | After it exactly the low 4 GiB are mapped, to themselves; it fails exactly if the pool is too small |
| `BootSetup.MapKernel` | boot/x86_64/src/paging.rs:221-276 | Adds exactly the kernel pages, re-mapping overlapping ones to the same frames, and exactly the page tables they need |
| `BootSetup.MapDirect` | boot/x86_64/src/paging.rs:278-299 | Adds exactly the direct map |
| `BootSetup.CompatTranslates` | boot/x86_64/src/paging.rs:171-182 | The compatibility PML4, used as the root of a 4-level walk, translates every upper-half address as the layout says, in both modes |
| `BootSetup.SetupNLevel` | boot/x86_64/src/paging.rs:184-312 | Succeeds exactly if the needed pages fit the pool; then every byte of memory that fits the direct map is mapped there, every byte of the image and of the 2 MiB window at its place, the low 4 GiB at themselves, and no other canonical address, apart from the rest of the last gigabyte and page; result fields |
| `BootLayout.PagesCover` | boot/x86_64/src/paging.rs:251-283 | The page counts reach the last byte of image and memory and not a page or gigabyte further |
| `BootLayout.RealisesServes` | boot/x86_64/src/paging.rs:184-312 | What the layout says of all memory, of the whole image, of the low 4 GiB, and that nothing else is mapped |
| `BootSetup.PoolSuffices` | boot/x86_64/src/paging.rs:76-94 | 256 pages are enough for every physical memory size and every kernel up to 239 MiB, with 4 and 5 levels |
| `BootSetup.PoolSharp` | boot/x86_64/src/paging.rs:278-299 | At 239 MiB, 5 levels and a full direct map all 256 are used, and one more byte of kernel needs 257 |
| `BootSetup.RootsAgree` | boot/x86_64/src/paging.rs:378-412 | A 4-level and a 5-level root for the layout translate every 48-bit canonical address alike |
| `BootSetup.SetupPageTables` | boot/x86_64/src/paging.rs:369-418 | Which mode is chosen, when it succeeds and then serves the whole address space, when a 5-level transition root is offered, and that fallback and transition root then agree and both compatibility PML4s serve the kernel half; building the second tables does not disturb the first |
| `BTreeInsert.SplitInv` | kernel/src/libs/btree/tree.rs:168-198 | Splitting a full child keeps depth and occupancy and leaves 7 keys on each side |
| `BTreeInsert.SplitFlat` | kernel/src/libs/btree/tree.rs:168-198 | and leaves the item sequence as it was |
| `BTreeInsert.InsertSpec` | kernel/src/libs/btree/tree.rs:122-166 | Insertion below a non-full node puts the item at its place, or duplicates the key exactly if it collides with a split median |
| `BTreeMap.InsertIsUpdateIff` | kernel/src/libs/btree/tree.rs:96-166 | insert is map update with the old value returned if and only if the key does not collide |
| `BTreeMap.AbsentNeverCollides` | kernel/src/libs/btree/tree.rs:96-166 | An absent key never collides |
| `BTreeMap.InsertAbsentKeepsTextbook` | kernel/src/libs/btree/tree.rs:96-198 | Inserting an absent key keeps the full B-tree invariant, makes m into m[k := v] and adds one item |
| `BTreeRemove.FixKeeps` | kernel/src/libs/btree/tree.rs:447-538 | Repairing a child by borrowing or merging keeps order, depth, occupancy and items; it is impossible exactly for a parent without keys |
| `BTreeRemove.FixSizes` | kernel/src/libs/btree/tree.rs:447-471 | It borrows from the left sibling if that has more than 7 keys, else from the right one likewise, and else merges, with the left one if there is one |
| `BTreeRemove.RemoveMaxSpec` | kernel/src/libs/btree/tree.rs:414-428 | remove_max takes the last item and keeps depth; it panics exactly on an empty last leaf |
| `BTreeRemove.RemoveMinSpec` | kernel/src/libs/btree/tree.rs:431-444 | remove_min likewise with the first |
| `BTreeRemove.RepairSearch` | kernel/src/libs/btree/tree.rs:350-411 | After a repair, searching again for the key reaches the repaired child and finds it where it was |
| `BTreeRemove.RemoveSpec` | kernel/src/libs/btree/tree.rs:350-411 | Removal below a node deletes exactly the key's item and returns its value, or panics exactly if the key is stranded |
| `BTreeRemove.KeyGivesWay` | kernel/src/libs/btree/tree.rs:362-383 | A key in an internal node is replaced by its predecessor if the left child has more than 7 keys, else by its successor if the right one has |
| `BTreeMap.RemoveIsRemovalIff` | kernel/src/libs/btree/tree.rs:331-411 | remove panics in exactly two situations; otherwise it is map removal with the old value, and order and equal depth are kept |
| `BTreeMap.TextbookNeverPanics` | kernel/src/libs/btree/tree.rs:331-538 | No removal from a textbook tree panics |
| `BTreeMap.GetSpec` | kernel/src/libs/btree/tree.rs:261-280 | Lookup agrees with the map |
| `BTreeEdges.InsertReach` | kernel/src/libs/btree/tree.rs:96-198 | An insertion that does not collide keeps order, equal depth and 7 keys in the first and last leaf below the root |
| `BTreeEdges.RemoveReach` | kernel/src/libs/btree/tree.rs:331-538 | So does a removal that does not panic, through every borrow, merge and replacement |
| `BTreeEdges.EndsAreFound` | kernel/src/libs/btree/tree.rs:303-329 | On every such tree first and last are the least and the greatest item, None exactly on the empty tree |
| `BTreeEdges.EveryTree` | kernel/src/libs/btree/tree.rs:96-411 | After every sequence of such operations from the empty tree the contents are the map the operations stand for, in ascending order, with first the least and last the greatest item |
| `BTreeEdges.RemoveRooted` | kernel/src/libs/btree/tree.rs:331-348 | After every removal that returned a value the root is a leaf or has a key |
| `BTreeEdges.NeverStarves` | kernel/src/libs/btree/tree.rs:331-411 | After every sequence of insertions and removals of keys that are there the root is a leaf or has a key, so a removal panics only at a stranded separator, and never at height 1 or less |
| `BTreeIter.BTreeIter.Next` | kernel/src/libs/btree/tree.rs:562-615 | The stack iterator yields the next item of the in-order sequence, or None at its end |
| `BTreeIter.Collect` | kernel/src/libs/btree/tree.rs:562-615 | Iteration ends and yields exactly the items in ascending order |
| `BTree.BTree.Insert` | kernel/src/libs/btree/tree.rs:96-120 | The tree object: map update, old value and length, or the duplicate in the colliding case |
| `BTree.BTree.Remove` | kernel/src/libs/btree/tree.rs:331-348 | The tree object: panic condition, map removal, value and length; a removal that found its key leaves a root that is a leaf or has a key |
| `BTree.BTree.First` | kernel/src/libs/btree/tree.rs:222-228 | The tree object: the least item, None exactly if empty |
| `BTree.BTree.Last` | kernel/src/libs/btree/tree.rs:230-236 | The tree object: the greatest item, None exactly if empty |
| `BTreeExamples.OverwriteExample` | kernel/src/libs/btree/tree.rs:153-159 | A textbook tree in which overwriting a key reports it as new and lookup keeps the old value |
| `BTreeExamples.RepeatedRemovalPanics` | kernel/src/libs/btree/tree.rs:414-444 | From every tree of height 2 or more with a well-filled first child, removing the first root key again and again ends in a panic |
| `BTreeExamples.StrandedExample` | kernel/src/libs/btree/tree.rs:414-444 | A textbook tree of height 2 from which seven removals of the root's key succeed and the eighth panics |
| `BTreeExamples.StarvedExample` | kernel/src/libs/btree/tree.rs:447-470 | A textbook tree of height 2 and eight removals of absent keys after which every removal panics |
| `Intervals.AddedPoints` | kernel/src/libs/mptree/tree.rs:55-77 | Adding a free interval defines the point-to-value function on its points and nowhere else, at a start that was unused |
| `Intervals.RemovedPoints` | kernel/src/libs/mptree/tree.rs:99-104 | Removing one undefines it there and nowhere else |
| `MapleTree.MapleTree.HasOverlap` | kernel/src/libs/mptree/tree.rs:79-87 | True exactly if some interval meets the range |
| `MapleTree.MapleTree.Find` | kernel/src/libs/mptree/tree.rs:89-97 | The interval that covers the point, or None if the point has no value |
| `MapleTree.MapleTree.Insert` | kernel/src/libs/mptree/tree.rs:55-77 | Refused exactly for empty and overlapping ranges; never replaces a key, so the B-tree neither collides nor panics; intervals stay disjoint |
| `MapleTree.MapleTree.Entries` | kernel/src/libs/mptree/tree.rs:189-193 | Iteration over the B-tree lists exactly the intervals, in ascending order |
| `MapleTree.MapleTree.Remove` | kernel/src/libs/mptree/tree.rs:99-104 | Panics exactly if the B-tree's removal does; otherwise takes out exactly that interval and returns its end and value |
| `MapleTree.MapleTree.UpdateEnd` | kernel/src/libs/mptree/tree.rs:196-207 | Panics exactly if the removal does; otherwise when it succeeds, and that a refusal leaves the tree unchanged if and only if it is not a new end at or before the start of an entry |
| `MapleTree.UpdateEndExample` | kernel/src/libs/mptree/tree.rs:196-207 | Giving [4, 9) the end 4 is refused, and the interval is gone |
| `MapleTree.MapleTree.Replace` | kernel/src/libs/mptree/tree.rs:209-226 | Panics exactly if the removal does; otherwise succeeds exactly if the range is non-empty and free of other intervals, and else changes nothing |
| `MapleTree.MapleTree.MoveStart` | kernel/src/libs/mptree/tree.rs:228-268 | Moves one start exactly if the new range is non-empty and free, unless the removal panics; the inserted key was unused, as the source's debug assertion says |
| `MapleTree.MapleTree.InsertOverwrite` | kernel/src/libs/mptree/tree.rs:270-297 | Removes and returns, in ascending order, exactly the intervals it meets; panics exactly if one of these removals, in that order, does |
| `MapleTree.MapleTree.SplitAt` | kernel/src/libs/mptree/tree.rs:299-319 | Cuts the one interval around the point, if any; no point changes its value; panics exactly if removing that interval does |
| `MapleTree.HalvesKeep` | kernel/src/libs/mptree/tree.rs:299-319 | Two halves have the same points and values as the whole |
| `MapleTree.MapleTree.MergeAdjacentEqual` | kernel/src/libs/mptree/tree.rs:321-355 | Ends with no touching equal neighbours, every point keeps its value, and the count is the drop in length; panics exactly if a removal on the way does |
| `MapleTree.JoinKeeps` | kernel/src/libs/mptree/tree.rs:336-345 | Joining two touching equal intervals keeps every point's value |
| `MapleTree.JoinDropsOne` | kernel/src/libs/mptree/tree.rs:336-345 | and leaves one entry less |
| `MapleTree.MapleTree.FindGap` | kernel/src/libs/mptree/tree.rs:106-143 | The lowest free block in the window, or None if there is none, if and only if the first test does not overrun the window; the sum in that test panics or wraps around exactly if it leaves the machine word |
| `MapleTree.MapleTree.FindGapReverse` | kernel/src/libs/mptree/tree.rs:145-187 | The highest free block in the window, or None if and only if there is none |
| `MapleTree.GapOverrunExample` | kernel/src/libs/mptree/tree.rs:116-122 | A tree and a window of three addresses in which five are reported free |
| `PipeModel.AliveIff` | kernel/src/fs/runtime/manager.rs:483-511 | A pipe exists if and only if some descriptor of some process names it |
| `PipeModel.CloseKeeps` | kernel/src/fs/runtime/manager.rs:483-511 | Closing keeps reader and writer counts equal to the number of descriptors naming each end, bytes conserved, and revives nothing |
| `PipeModel.OpenKeeps` | kernel/src/fs/runtime/manager.rs:606-651 | Duplicating keeps the same |
| `PipeRuns.EventKeeps` | kernel/src/fs/runtime/manager.rs:287-757 | Every operation keeps the invariant and only advances each pipe: no end revived, bytes appended and taken in order |
| `PipeRuns.PipesAreCounted` | kernel/src/fs/runtime/manager.rs:345-699 | In every state of every run a pipe exists if and only if a descriptor names it, its counts are the numbers of descriptors naming each end, and the bytes written are those read followed by those buffered |
| `PipeRuns.EofIsPermanent` | kernel/src/fs/runtime/manager.rs:411-446 | Over every run of the operations from the empty state, a pipe without writers never has one again, what is left to read is what was buffered then, and a read from it never waits |
| `PipeRuns.EpipeIsPermanent` | kernel/src/fs/runtime/manager.rs:466-477 | Over every such run, a pipe without readers never has one again and takes no more bytes, and every write to it answers EPIPE |
| `PipeModel.PollPredictsRead` | kernel/src/fs/runtime/manager.rs:987-1043 | POLLIN and POLLHUP at a read end foretell the next read, on exactly these descriptors |
| `PipeModel.PollPredictsWrite` | kernel/src/fs/runtime/manager.rs:987-1058 | POLLOUT and POLLERR at a write end foretell the next write, on exactly these descriptors |
| `PipeModel.PollElsewhere` | kernel/src/fs/runtime/manager.rs:987-1058 | POLLNVAL exactly below 0, EBADF exactly for closed descriptors above 2, the terminal on 0 to 2, files and directories; nothing is answered that was not asked |
| `PipeRuns.PollExample` | kernel/src/fs/runtime/manager.rs:987-1043 | A run after which poll on descriptor 0, the read end of an empty pipe, does not foretell the read |
| `FsState.FsState.AllocFdFrom` | kernel/src/fs/runtime/manager.rs:205-222 | The least free descriptor from the starting point on; the search does not end exactly if there is none up to the largest `i32` |
| `FsState.FsState.Open` | kernel/src/fs/runtime/manager.rs:339-342 | A file or directory descriptor at the least free number; touches no pipe |
| `FsState.FsState.Pipe2` | kernel/src/fs/runtime/manager.rs:345-380 | Two fresh descriptors: the read end and the write end of a new empty pipe, each nonblocking and close-on-exec exactly as its flag bit says, all else unchanged; or EINVAL exactly for unknown flags; does not end exactly if the numbers run out before the second, unless the largest `i32` itself is free; the two are one number exactly if the first is the largest `i32`; the invariant is kept exactly if they differ and the 64-bit pipe number is not used up |
| `FsState.FsState.Read` | kernel/src/fs/runtime/manager.rs:382-451 | The answer for each kind of descriptor, the bytes delivered, the rest of the buffer and of the queue, all other pipes unchanged; invariant kept |
| `FsState.FsState.Write` | kernel/src/fs/runtime/manager.rs:453-481 | All bytes appended in order to the one pipe, or nothing, with the answer for each kind of descriptor; invariant kept |
| `FsState.FsState.Close` | kernel/src/fs/runtime/manager.rs:483-511 | EBADF exactly for a closed descriptor; otherwise the end is released, no other descriptor and no buffered byte changes; invariant kept |
| `FsState.FsState.Dup` | kernel/src/fs/runtime/manager.rs:622-651 | A further descriptor for the same open file at the least free number, with the flags of the first but its own close-on-exec; no other descriptor changes; does not end exactly if none is free; the invariant is kept exactly if the pipe's count is not saturated |
| `FsState.FsState.Dup2` | kernel/src/fs/runtime/manager.rs:653-699 | The same at a given number, closing what was there, also if that is the other end of the same pipe; the invariant is kept exactly if the count is then not saturated |
| `FsState.FsState.DropProcessFds` | kernel/src/fs/runtime/manager.rs:1060-1087 | Exactly the process's descriptors go, in any order, with the counts and pipes that leaves; surviving pipes keep their bytes; invariant kept |
| `FsState.FsState.SetFlags` | kernel/src/fs/runtime/manager.rs:723-757 | Exactly the given flags of the one descriptor change, nonblocking only for pipe ends |
| `Barrier.NobodyPassesEarly` | kernel/src/sync/barrier.rs:35-57 | In every run no thread has returned from its k-th wait unless every thread has arrived at its k-th |
| `Barrier.OneLeaderARound` | kernel/src/sync/barrier.rs:42-48 | Every round has exactly one leader |
| `Barrier.LoadedStaysCurrent` | kernel/src/sync/barrier.rs:36-40 | The generation a thread has loaded is still current when it arrives |
| `Barrier.NeverStuck` | kernel/src/sync/barrier.rs:35-57 | Some thread can always make a step that is not a spin |
| `RwLock.Exclusion` | kernel/src/sync/rwlock.rs:47-129 | In every run state is WRITER if and only if a writer owns the lock, then without readers, and otherwise it is the number of read guards |
| `RwLock.Keeps` | kernel/src/sync/rwlock.rs:47-190 | Every atomic step, guard drops included, keeps the lock's invariant, with waiting_writers the number of announced threads |
| `RwLock.WritersAreNotStarved` | kernel/src/sync/rwlock.rs:47-73 | While some writer stays announced, each thread gains at most one further read lock, and none unless it had passed the check |
| `RwLock.WriteTakesFreeLock` | kernel/src/sync/rwlock.rs:98-113 | In every run an announced writer owns the lock after its exchange exactly if the lock was free and the exchange did not fail spuriously, and its next step returns the guard |
| `RwLock.WritersCanEnter` | kernel/src/sync/rwlock.rs:98-190 | In every run an announced writer is at most three steps more than the guards before it away from its guard |
| `RwLock.ReadChecks` | kernel/src/sync/rwlock.rs:47-94 | A reader goes on exactly if no writer waits and the loaded count has room; it panics exactly at the largest count, and try_read then gives up |
| `RwLock.ReadTakesLock` | kernel/src/sync/rwlock.rs:62-68 | It gets a guard exactly if the count is the loaded one, no writer has the lock and the exchange does not fail spuriously |
| `RwLock.ReadGoesThrough` | kernel/src/sync/rwlock.rs:47-73 | Undisturbed and with no writer it has its guard in three steps |
| `RwLock.TryWriteAnswers` | kernel/src/sync/rwlock.rs:116-129 | try_write gets a guard exactly if no writer waits at its check and the lock is free at its exchange |
| `RwLock.NeverStuck` | kernel/src/sync/rwlock.rs:47-190 | In every run some step changes the state, unless all threads have panicked and no guard is left |
| `Once.OneRunner` | kernel/src/sync/once.rs:71-111 | At most one initialiser runs at a time |
| `Once.CompleteForEver` | kernel/src/sync/once.rs:71-111 | COMPLETE is permanent, with one value ever produced, fixed in the cell |
| `Once.AnswersAgree` | kernel/src/sync/once.rs:168-228 | All answers that carry or confirm a value, anywhere in a run, agree on it |
| `Once.OkOnlyAfterCompletion` | kernel/src/sync/once.rs:182-228 | Success is answered only after completion, and a completed cell is never found empty |
| `Once.CallsAnswer` | kernel/src/sync/once.rs:71-228 | In every run a call answers Accepted or its value after its own initialiser has succeeded, Failed after that has failed, and from completion on the cell's value, or Refused for set |
| `Once.GetLooksOnce` | kernel/src/sync/once.rs:169-175 | get answers the cell's value if it starts after completion, and None exactly if it finds the cell not complete |
| `Once.CallsGoOn` | kernel/src/sync/once.rs:71-111 | A thread inside a call can always go on, unless it spins while another runs |
| `Once.FailureReopens` | kernel/src/sync/once.rs:39-45 | A failed initialiser leaves the cell as new and the next attempt wins |
| `Once.NobodyWaitsInVain` | kernel/src/sync/once.rs:99-107 | While a thread spins, the running thread can go on |
| `TrbRing.FetchedInOrder` | kernel/src/drivers/usb/xhci.rs:368-402 | In every interleaving and across any number of wraps, what the controller executes is a prefix of what was enqueued, with at most 255 outstanding |
| `TrbRing.NextIsFetched` | kernel/src/drivers/usb/xhci.rs:414-460 | With TRBs outstanding it executes the next one, after at most one link |
| `TrbRing.NothingTorn` | kernel/src/drivers/usb/xhci.rs:388-401 | With none outstanding it executes nothing, however far the driver is in its stores |
| `TrbRing.PlainMeans` | kernel/src/drivers/usb/xhci.rs:388-401 | Comparing TRBs apart from the cycle bit compares parameter, status, type and every other control bit |
| `TrbRing.RingState.Enqueue` | kernel/src/drivers/usb/xhci.rs:414-460 | The driver's code makes exactly the stores of the step machine, and sends the given TRB |
| `EventRing.EventRing.PollEvent` | kernel/src/drivers/usb/xhci.rs:481-508 | The oldest event not yet polled, None exactly if there is none; the dequeue register follows |
| `CpioFormat.ParseHexOfHex` | kernel/src/fs/backing/initramfs.rs:82-86 | A printed 8-digit field is read back as the number |
| `CpioFormat.ParseHexAccepts` | kernel/src/fs/backing/initramfs.rs:82-86 | Exactly fields of hexadecimal digits are read, in either case, and a plus sign before them changes nothing |
| `CpioFormat.Utf8IffScalars` | kernel/src/fs/backing/initramfs.rs:172-172 | A name is accepted exactly if it is the UTF-8 form of a sequence of Unicode scalar values |
| `CpioFormat.HeaderLayout` | tools/mkinitramfs/src/main.rs:21-39 | The header is the magic and thirteen 8-digit fields, in their order |
| `CpioFormat.BothMagics` | kernel/src/fs/backing/initramfs.rs:148-152 | Both magic numbers are read alike, and no other is |
| `CpioFormat.ReadWritten` | tools/mkinitramfs/src/main.rs:21-55 | A record written at an aligned position is read back with inode, mode and name, and whole data if and only if it is below 4 GiB |
| `Cpio.NormalizeDest` | tools/mkinitramfs/src/main.rs:57-82 | The archive path consists of the clean components of the trimmed text; panics exactly on ".." and on paths without components |
| `Cpio.ArchivePartsGrow` | tools/mkinitramfs/src/main.rs:66-76 | Component by component: ".." is refused wherever it stands, empty and "." components are passed over, others are kept in order |
| `Cpio.SameAsInFileSystem` | kernel/src/fs/backing/initramfs.rs:98-125 | A path accepted in an archive leads where the file system's own normalisation of it leads |
| `Cpio.WhiteCharacters` | tools/mkinitramfs/src/main.rs:58-58 | The characters trimmed are exactly those with the Unicode property White_Space |
| `Texts.TrimIsMiddle` | tools/mkinitramfs/src/main.rs:57-64 | Trimming takes all Unicode white space from both ends, and nothing else |
| `Cpio.ArchivePathOfName` | kernel/src/fs/backing/initramfs.rs:98-125 | The name written for a normal path is normalised back to that path |
| `Cpio.ParseArchive` | kernel/src/fs/backing/initramfs.rs:143-226 | On arbitrary bytes the parser ends and stays in bounds; it yields the entries of the recursive specification in the byte order of their paths, each with a normal path other than "/", and file data that is a slice of the input |
| `Cpio.ParseIsSound` | kernel/src/fs/backing/initramfs.rs:143-226 | Whatever the bytes, every stored entry has a normal path other than "/" as its key, a kind that matches its mode, and data exactly if it is a file, a slice of the input |
| `Cpio.StoredCases` | kernel/src/fs/backing/initramfs.rs:186-222 | A record is an error exactly for ".." in its name, is passed over for the root and for other kinds of nodes, and else is stored under its path with mode, kind, data and inode number |
| `Cpio.KindOfBits` | kernel/src/fs/backing/initramfs.rs:193-197 | Bits 15 to 12 of the mode decide: 0100 is a directory, 1000 a regular file |
| `Texts.IntoValues` | kernel/src/fs/backing/initramfs.rs:225-225 | Values come out in strictly ascending byte order of their keys, all of them |
| `Cpio.WriteEntry` | tools/mkinitramfs/src/main.rs:41-55 | Appends header, name, NUL, padding, data, padding |
| `Cpio.WriteArchive` | tools/mkinitramfs/src/main.rs:222-249 | Directories, then files, with running inode numbers, then the trailer |
| `Cpio.ParseWritten` | kernel/src/fs/backing/initramfs.rs:143-226 | Parsing a written archive succeeds and loads the nodes in order, later ones over earlier ones of the same path |
| `Cpio.RoundTrip` | kernel/src/fs/backing/initramfs.rs:143-226 | For distinct paths, every node comes back with path, inode, mode, kind and data, and nothing else does, if and only if none has the trailer's name |
| `Cpio.DirectoryExample` | kernel/src/fs/backing/initramfs.rs:143-226 | A directory of mode 0755 and a file in it come back with inode numbers 1 and 2 |
| `Cpio.TrailerExample` | kernel/src/fs/backing/initramfs.rs:179-181 | An archive of one file named like the trailer is read back empty |
| `Paths.NormalizePath` | kernel/src/fs/vfs/path.rs:6-48 | The normal form of where the path leads, NotFound exactly for the empty path |
| `Paths.NormalizePathFromBase` | kernel/src/fs/runtime/manager.rs:232-279 | The second copy gives the same on all inputs |
| `Paths.DotDotGoesUp` | kernel/src/fs/vfs/path.rs:29-30 | After any path, ".." leads to the directory above, and at the root stays there |
| `Paths.NamesGoDown` | kernel/src/fs/vfs/path.rs:25-33 | After any path, a name leads one directory down; an empty or "." component stays |
| `Paths.OneComponent` | kernel/src/fs/vfs/path.rs:6-33 | Where a path of one component leads from the working directory |
| `Paths.AbsoluteIgnoresCwd` | kernel/src/fs/vfs/path.rs:12-12 | An absolute path leads to the same place from everywhere |
| `Paths.RelativeStartsAtCwd` | kernel/src/fs/vfs/path.rs:12-23 | A relative path leads where it leads behind the normal form of the working directory |
| `Paths.Idempotent` | kernel/src/fs/vfs/path.rs:6-48 | Normal forms are fixed points from every working directory |
| `Paths.NoSpecialComponents` | kernel/src/fs/vfs/path.rs:6-48 | No component of a result is empty, "." or ".." |
| `Paths.SplitJoin` | kernel/src/fs/vfs/path.rs:40-46 | Splitting undoes joining |
| `Paths.ParentAndName` | kernel/src/fs/vfs/path.rs:50-63 | split_parent of a normal form gives the normal form of its directory and its last component |
| `Paths.ParentRejoins` | kernel/src/fs/vfs/path.rs:50-63 | For every path the name has no slash, and parent, slash and name are the path without the slashes at its end |
| `Mounts.MatchesIsServes` | kernel/src/fs/vfs/mount.rs:79-86 | The byte-prefix test agrees with component-wise prefix |
| `Mounts.MountTable.Resolve` | kernel/src/fs/vfs/mount.rs:75-95 | The longest component-wise prefix mount, whatever the iteration order; None exactly if none serves the path |
| `Mounts.ResolvesOnce` | kernel/src/fs/vfs/mount.rs:75-95 | That mount is unique |
| `Mounts.MountTable.Mount` | kernel/src/fs/vfs/mount.rs:40-62 | New entry, overwritten root, Busy or NotFound, each exactly when |
| `Mounts.MountTable.Umount` | kernel/src/fs/vfs/mount.rs:64-73 | Removed entry, Busy for the root, NotFound, each exactly when |
| `Mounts.OnlyBelow` | kernel/src/fs/vfs/mount.rs:40-73 | Mounting or unmounting t changes nothing for paths not under t |
| `Mounts.BelowMount` | kernel/src/fs/vfs/mount.rs:40-62 | Under t, it takes over from every mount that is not deeper |
| `LruCache.LruCache.PushFront` | kernel/src/libs/lru/cache.rs:339-352 | The links spell the old sequence with the node in front |
| `LruCache.LruCache.Unlink` | kernel/src/libs/lru/cache.rs:354-383 | The links spell the old sequence without the node |
| `LruCache.LruCache.Put` | kernel/src/libs/lru/cache.rs:157-196 | Replaces in front, or inserts in front and evicts exactly the last when full; at capacity 0 hands the pair back; every pair ever inserted is held or was handed back exactly once |
| `LruCache.LruCache.Get` | kernel/src/libs/lru/cache.rs:117-126 | A hit moves to the front, the rest keeps its order |
| `LruCache.LruCache.Remove` | kernel/src/libs/lru/cache.rs:233-243 | Takes out and returns exactly the key's pair |
| `LruCache.LruCache.PopLru` | kernel/src/libs/lru/cache.rs:257-268 | Takes out the last |
| `LruCache.LruCache.PopMru` | kernel/src/libs/lru/cache.rs:270-281 | Takes out the first |
| `LruCache.LruCache.Resize` | kernel/src/libs/lru/cache.rs:98-115 | Evicts exactly what exceeds the new capacity, last first |
| `LruCache.WithoutIndex` | kernel/src/libs/lru/cache.rs:233-281 | Index and list still agree after a node is taken out of both |

## Left out

- LA57 trampoline, CPUID and CR4 probing, UEFI services: inline assembly and firmware; the probe's answers are an input of `SetupPageTables`.
- Page-table entry bits beyond present, huge and address, and the TLB: not needed for translation.
- B-tree keys are integers instead of any ordered type, and nodes are values instead of boxed memory: aliasing and update in place of nodes are not captured.
- B-tree `pop_first`, `pop_last`, `retain`, `clone`: combinations of, or loops over, what is there.
- Interval tree iterators, `total_length`, `retain` and mutable access: easy members.
- Descriptors: file contents, offsets, directories, `lseek`, `stat`, mmap backings and the working directory are not modelled; what the file system and the terminal answer is an input of `Read` and `Poll`.
- Locks: weak memory orderings (sequential consistency is used) and fairness.
- Mutex, SpinLock, semaphores, CondVar, latch: smaller invariants of the same kind.
- xHCI reset, ports, descriptors, doorbells, and what the controller does with a TRB: device behaviour.
- Reading the source tree of an archive from disk: input and output.
- Mount sources and the snapshot of the mount table: easy members.
- LRU `get_mut`, `peek`, `promote`, `put_if_absent`, `get_or_insert` and iterators: combinations of what is there.
- Scheduler, memory management, drivers, shells, ext4 and FAT32: not part of this model.
