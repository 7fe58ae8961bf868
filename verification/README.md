# Proofs about GPU page tables, barriers, TPC partitions, timelines and runlists

A Dafny model of five parts of the repository, with proofs of what they promise. `dafny verify dfyconfig.toml`
checks everything.

**The page-table engine of nvdebug** (`GpuMemory`, `PageTable`, `Translation`, `Search`, `Mapping`, `Collection`, `Mmu`,
`Runs`, `Instances`).
Memory is a map from locations (VID_MEM or bus address) to 64-bit words, each a record of the bit fields of
`page_dir_entry_t`; the record and the raw word are proved to carry the same information. A *tree* gives every directory
its one place: level, parent entry, root, and first virtual address. `WellFormed` ties memory and tree together, `Lookup` is
the walk of the hardware (the frame, its aperture and the level of its page), `Physical` the address that it gives, and
`Sound` adds that the driver's list of allocated pages records where each of them hangs, newest first and children before
their parents; which directories can be accessed is left open throughout. The class `Mmu.Gpu` has the
driver's state: memory, the BAR0 window register, the I/O MMU's mappings and the list; its methods are the driver's
functions, including the movable 1 MiB window and the 16-byte entries. Each is proved against a specification that
mentions neither window nor loop, and `Runs` then looks at arbitrary sequences of calls.

**The sense-reversing barrier and its client** (`Barrier`, `Benchmarks`): state machines for any number of processes whose
atomic steps interleave arbitrarily, while a clock goes on; memory is sequentially consistent.

**TPC partitions** (`TpcLists`, `Gpcs`, `HexMasks`, `LaunchMasks`, `Isolation`): printing and parsing partitions as lists and as
hexadecimal masks, the GPC-to-TPC map, and the launch callback. In lists and launches a mask is the set of the positions of
its set bits; in `HexMasks` it is a number below 2^128, and `Isolation` connects the two.

**Timelines** (`Timelines`): sweep and merge, over real times. **Runlists** (`Runlists`): the walk of the TSG switch.

What the environment decides is a parameter or a field: the outcomes of page allocation and DMA mapping, in order
(`pool`); which bus addresses the I/O MMU maps; whether the window register can be read; the clock (`now`); the contents of
the configuration registers; the number of enabled TPCs; which channel registers cannot be read. Memory never written reads
as zero; a freed page reads as zero, or no longer resolves when there is an I/O MMU.

Findings about the code, with the theorems that say exactly when they happen; `Instances` has small tables on which the
first five do:

- Translation and search read 24 address bits of every entry, mapping writes and follows up to 46. At a directory entry
  that needs more than 24 bits, translation and search go on in the page that the low bits name (`TranslateLaw`,
  `SearchLaw`): translation may report an unmapped page or succeed with a wrong frame, search may miss a page or answer with
  an address that is not mapped at all. If those pages are dead, translation finds the physical address of a mapped page if
  and only if no entry on the walk is of that kind, every directory on it can be accessed, the frame lies below 2^36, and the
  address is the first of its page (`FoundExact`, `TranslateExact`). A mapping call, even one that fails, can link such a
  directory and thereby change what translation reports (`OthersTranslateTheSame`).
- For an address past the start of a 2 MiB page, translation reports the start of the frame. Mapping compares with that, too:
  it returns 1 for the start of the frame and -EADDRINUSE for the true address (`ReturnExact`). Search finds only starts
  of pages (`AnswerExact`, `ZeroExact`). A 2 MiB request where a page table for small pages hangs returns -EADDRINUSE, even if
  that table maps the same memory or nothing any more (`SmallPagesExact`).
- A directory that the I/O MMU does not map makes translation return 0, `PTR_ERR(NULL)`, with no page (`NullMeans`).
- Search takes what it cannot access for unmapped, and 0 both for no match and for a match at address 0 (`ZeroExact`,
  `SeenAtZero`). It reads a directory at address 0, which translation refuses: its answer translates forward if and only if no
  such directory is on the answer's own walk (`AnswerTranslates`). It stops because tables at the last level hold no directory
  entries: its own level check compares with a size in bytes.
- A collection takes a recorded parent entry that the I/O MMU does not map for gone. If its directory is still part of a
  table, the entry stays and points to a freed page; what remains is a tree if and only if that happens to no page
  (`TreeRemainsExactly`). It cannot happen as long as only the driver changes mappings (`RunStaysAttached`).
- Mapping follows the 46-bit address even of a directory entry into VID_MEM, where only 24 bits count: the aperture field
  of such an entry reads 1, so the test against VID_MEM is never true. It goes where the hardware goes if and only if the
  other bits are zero (`NextIsChild`); well-formed tables have them zero.
- A collection recognises a page by the address in its recorded parent entry, whatever kind of entry that is. While nothing
  but the driver changes a table, an unforced collection frees nothing (`CollectInRun`).
- A register that names GPC 12 to 15 makes the GPC map write past the device's row, before the call fails with EIO
  (`MapTpcs`).
- A next or stream mask of 0 counts as not set.
- `compose_list` reads `in_range` before it is assigned (taken as false), reads the byte before its buffer for mask 0,
  and leaves a range open that reaches bit 127; `parse_list` rejects such text.
- In the runlist switch a channel listed by several groups is decided by the last of them. Before Ampere, writing back what
  was read resets the pending faults of every listed channel (`SetEnable`).

## Model

| member | source | states |
|---|---|---|
| GpuMemory.DecodeOfRaw | nvdebug/nvdebug.h:1296-1326 | The fields of an entry can be recovered from its raw 64-bit word. |
| GpuMemory.RawOfDecode | nvdebug/nvdebug.h:1296-1326 | Every raw word is the packing of its fields: the two views of the union carry the same information. |
| GpuMemory.UnionViews | nvdebug/nvdebug.h:1296-1326 | Each field, the page-entry view and the wide address are the stated bits of the raw word; frames have 24 address bits in VID_MEM and at peers and 46 in SYS_MEM, directories 24 and 46. |
| PageTable.SlicesAreDigits | nvdebug/nvdebug.h:1220-1225 | Every address below 2^49 is the sum of its five slices, in 2, 9, 9, 8 and 9 bits from bit 47 down to bit 12, and its low 12 bits. |
| PageTable.IndexCovers | nvdebug/nvdebug.h:1220-1225 | For a directory that starts at an aligned address, the slice of an address for that level names an existing entry, and exactly the one whose range holds the address. |
| PageTable.LookupIsHardwareWalk | nvdebug/nvdebug.h:1220-1225 | The walk over the geometry tables is the walk by bits of the address and byte offsets: 8-byte entries, at level 3 the upper half of 16-byte ones. |
| PageTable.EmptyTable | nvdebug/mmu.c:405-407 | One zeroed page is a well-formed table, and maps nothing. |
| PageTable.OneParent | nvdebug/mmu.c:405-437 | In a well-formed table no directory is pointed to by two entries. |
| PageTable.OutsideEntryUnchanged | nvdebug/mmu.c:373-437 | Changing one entry leaves the translation of every address that the entry does not cover as it was, in this and in every other table. |
| PageTable.LinkKeepsTree | nvdebug/mmu.c:405-437 | Linking a fresh zeroed page below an invalid entry yields a well-formed tree again. |
| PageTable.LinkKeepsLookups | nvdebug/mmu.c:405-437 | Linking an empty directory changes no translation. |
| PageTable.PteKeepsTree | nvdebug/mmu.c:382-403 | Writing a page entry at one of the two leaf levels keeps the tree well-formed. |
| PageTable.LinkKeepsWalks | nvdebug/mmu.c:405-437 | A linked directory joins exactly the walks that ended at its entry; a walk still needs but 24 address bits if and only if it did before and does not enter a directory at or above 2^36. |
| Mmu.Gpu.AddrToPraminMut | nvdebug/bus.c:36-82 | The offset shows the requested location, the 64 KiB around it lie inside the window, the window moves only when it must, and the two errors occur exactly when the address is too wide, the register dead, or the target fixed to another aperture. |
| Mmu.Gpu.VidOnlyChips | nvdebug/bus.c:49-64 | The window is restricted to VID_MEM exactly on the Hopper chips (0x180 to 0x18F) and from Blackwell (0x1A0) on. |
| Mmu.Gpu.DeadMeans | nvdebug/bus.c:54-58 | The register is taken for inaccessible exactly if its raw word is all ones. |
| Mmu.Gpu.ShowableExactly | nvdebug/bus.c:42-48 | An address is refused as too wide exactly if no base of the window has it in its first 64 KiB. |
| Mmu.Gpu.WindowShowsPage | nvdebug/bus.c:30-31 | Such an offset is good for every word of the 4 KiB page around the address. |
| Mmu.Gpu.PdDeref | nvdebug/mmu.c:37-77 | Whatever the window shows beforehand: the result is an error, NULL or an address under which every word of the page can be accessed, as the address, target, chip and I/O MMU demand; whether anything else resolves does not change. |
| Mmu.Gpu.EntryKva | nvdebug/mmu.c:198-207 | With the adjustment by 8 for 16-byte entries, the access for an index hits the upper word of that entry, and 8 bytes before it the lower word, inside the window. |
| Mmu.Gpu.TranslatePageDirectory | nvdebug/mmu.c:170-224 | Translating through the moving window returns what the walk over flat memory defines, for every memory, table and window, errors included. |
| Translation.PdTargetIs | nvdebug/nvdebug.h:1226-1241 | Directories in VID_MEM have PD target 2, those in SYS_MEM keep their aperture in the upper two bits, peers have none. |
| Translation.TranslateLaw | nvdebug/mmu.c:193-223 | On any well-formed table, whatever else it or other tables hold: translation of an address is the hardware's walk, with the frame cut to 36 bits, if nothing obstructs the walk; at a directory that cannot be accessed it ends with that directory's error or NULL; at an entry that needs more than 24 address bits it goes on in the page that the low bits name. |
| Translation.NarrowIsClear | nvdebug/mmu.c:218-220 | With all directories accessible, the walk is unobstructed if and only if 24 address bits suffice for every directory on it. |
| Translation.FoundExact | nvdebug/mmu.c:193-223 | For a mapped address, if the page that a wide entry aliases is dead: the walk finds the physical address if and only if it is unobstructed, the frame is below 2^36, and the address is the first of its page. |
| Translation.TranslateExact | nvdebug/mmu.c:185-223 | Translation reports the physical address of a mapped address under exactly this condition, or when both are page 0 of a peer, which reads like the NULL result. |
| Translation.NullMeans | nvdebug/mmu.c:201-205 | Translation returns 0 without having found a page if and only if the walk meets a directory (or the page that stands in for a wide one) that the I/O MMU does not map. |
| Translation.EmptyAliasIsDead | nvdebug/mmu.c:218-220 | A page that reads zero is dead as an alias for every address. |
| Instances.HugeIsWellFormed | nvdebug/mmu.c:193-223 | The table of the instances is a well-formed tree, with its level-1 directory below or above 2^36. |
| Instances.DeepIsTranslated | nvdebug/mmu.c:193-223 | A 4 KiB page at an address all of whose slices differ from zero is mapped and translated to its frame. |
| Instances.WideDirectoryMisleads | nvdebug/mmu.c:218-220 | With the directory above 2^36 and a page entry in the page that its low bits name, translation succeeds with a wrong frame. |
| Instances.WideDirectoryIsLost | nvdebug/mmu.c:218-220 | With that page empty, translation reports the mapped address as unmapped. |
| Instances.UnmappedDirectoryReturnsZero | nvdebug/mmu.c:201-205 | With a directory that the I/O MMU does not map, translation of a mapped address returns 0 and no page. |
| Instances.InsideIsNotTranslated | nvdebug/mmu.c:212-216 | For address 0x1000 inside a 2 MiB page, translation reports the start of the frame. |
| Instances.InsideIsMistaken | nvdebug/mmu.c:447-454 | A small request for that address returns 1 for the start of the frame and -EADDRINUSE for the true physical address. |
| Instances.InsideIsNotFound | nvdebug/mmu.c:106-110 | Search answers 0 for that physical address, though it is mapped. |
| Instances.SearchSeesBehind | nvdebug/mmu.c:111-119 | With the level-1 directory above 2^36 and a directory in the page that its low bits name, search answers with an address that is not mapped. |
| Instances.SearchMissesUnmapped | nvdebug/mmu.c:94-99 | With a directory that the I/O MMU does not map, search answers 0 for the frame of a mapped page. |
| Instances.ZeroDirectoryIsSearched | nvdebug/mmu.c:94-102 | With a directory at exactly 2^36, search sees a page from an address whose translation fails with -EINVAL. |
| Instances.EmptySmallTableIsInUse | nvdebug/mmu.c:457-463 | A 2 MiB request where an empty page table for small pages hangs returns -EADDRINUSE, though no address of the page is mapped. |
| Instances.UnmappedParentLeavesEntry | nvdebug/mmu.c:269-293 | A collection frees the driver's level-2 directory below a level-1 directory that is not mapped, and leaves the entry that points to it: the table is no tree afterwards. |
| Mmu.Gpu.SearchSubtree | nvdebug/mmu.c:80-121 | On any memory that leads the search no deeper than its tables, the result for an entry is 0 if the search sees the frame from no address that the entry covers, and otherwise 1 plus the offset of the least one. |
| Search.ChildHit | nvdebug/mmu.c:113-119 | A least hit below one entry of a child directory, with the entry's offset put in, is the least hit below the parent's entry; without a hit the search may go on. |
| Mmu.Gpu.SearchPageDirectory | nvdebug/mmu.c:138-154 | On any such memory, and through any window: the answer is the least address from which the search sees the frame and aperture, or 0 if there is none or only 0. |
| Search.AnswerTranslates | nvdebug/mmu.c:80-154 | On any memory: a nonzero answer translates forward to the frame and aperture searched for if and only if its own walk meets no directory at address 0; no smaller address does; 0 means that no address does, provided address 0 does not. |
| Search.SearchLaw | nvdebug/mmu.c:80-154 | On any well-formed table, what search sees from an address is what the hardware maps there, with the frame cut to 36 bits, if nothing obstructs the walk; nothing if a directory cannot be accessed; and past an entry that needs more than 24 address bits what it sees in the page that the low bits name. |
| Search.TreeIsSearchable | nvdebug/mmu.c:89-120 | A well-formed table is never searched too deep if and only if no page behind a wide entry leads below the last level. |
| Search.AnswerExact | nvdebug/mmu.c:138-154 | On any well-formed table: a nonzero answer whose own walk is unobstructed is the first address of a page, and the hardware maps it to what was searched for if and only if the frame is below 2^36; otherwise the page was seen behind a wide entry. |
| Search.ZeroExact | nvdebug/mmu.c:106-154 | On any well-formed table, if the page is not seen at address 0: the answer 0 means that every page that starts with the frame has an obstructed walk; below 2^36 it is wrong if and only if some address is mapped to what was searched for whose walk is obstructed or which lies past the start of its page. |
| Search.SeenAtZero | nvdebug/mmu.c:138-154 | The page is seen at address 0, so that the answer 0 is ambiguous, if and only if a page with the frame starts there unobstructed or is seen there behind a wide entry. |
| Mapping.LeafMaps | nvdebug/mmu.c:164-173 | The page entry written for an accepted request is read back by the hardware as the requested frame and aperture. |
| Mapping.GoodExactly | nvdebug/mmu.c:327-360 | A request is accepted exactly if v and paddr are multiples of the page size asked for, v is below 2^49, and some word is a page entry of the requested aperture (VID_MEM or SYS_MEM) with frame paddr. |
| Mapping.RefusedExactly | nvdebug/mmu.c:318-474 | Unless a DMA mapping fails with that very error, a completed call returns -EINVAL exactly for the requests that are not of this kind. |
| Mapping.ReturnMeans | nvdebug/mmu.c:373-473 | The result of every accepted request, from how the address translates before: -EADDRINUSE if a page table for small pages hangs where a 2 MiB page is wanted; else 1 if the frame of its page is the one requested, -EADDRINUSE if it is another; and if unmapped, 0 or the allocation failure met while making up for the missing directories. |
| Mapping.ReturnExact | nvdebug/mmu.c:447-454 | For a mapped address, 1 and -EADDRINUSE tell whether it denotes the physical address requested, unless it lies past the start of its page and the start of the frame or the true address is requested. |
| Mapping.SmallPagesExact | nvdebug/mmu.c:457-463 | Where a page table for small pages hangs, a 2 MiB request returns -EADDRINUSE; some address of the page is mapped to something else than requested if and only if some entry of that page table holds something else. |
| Mapping.NextIsChild | nvdebug/mmu.c:464-470 | The directory that mapping goes to next is the hardware's if and only if an entry into VID_MEM has no address bits beyond its 24. |
| Mapping.AllocSucceeds | nvdebug/mmu.c:407-418 | These allocations yield 0 if and only if as many pages are handed out as directories are missing; else -ENOMEM or the DMA mapping error, as the first failure says. |
| Mapping.StopLookup | nvdebug/mmu.c:373-445 | The entry at which mapping stops tells how the address translates: invalid if unmapped, else a page entry with its frame, or the directory in the way of a 2 MiB page. |
| Mapping.LinkIsSound | nvdebug/mmu.c:405-437 | Linking a fresh page and recording it keeps tree and list sound: one recorded place per page, parents older than children. |
| Mapping.LeafEffect | nvdebug/mmu.c:382-410 | Writing the page entry maps exactly the requested page to the requested frame and changes no other translation in any table. |
| Mmu.Gpu.LinkNew | nvdebug/mmu.c:404-437 | The memory after it is the memory before with the new page zeroed and one entry replaced; the new page heads the list with its true parent entry. |
| Mmu.Gpu.WriteLeaf | nvdebug/mmu.c:382-441 | Writing the page entry, in both halves of a 16-byte one, completes the call with result 0. |
| Mmu.Gpu.OccupiedReturn | nvdebug/mmu.c:447-454 | 1 if the entry maps the requested frame in the requested aperture, else -EADDRINUSE. |
| Mmu.Gpu.MapPageDirectory | nvdebug/mmu.c:318-474 | If a directory that exists for the request cannot be accessed, the result is -ENOTRECOVERABLE and nothing changes. Otherwise the state stays sound and the result is the one the table and the allocation outcomes determine, so the -ENOTRECOVERABLE after the loop is never reached. On 0 the page was free and now translates as requested and nothing else changes; on any other result no translation changes, even after directories were linked; a repeated call returns 1; bad and occupied requests write nothing; which walks need but 24 address bits follows from which new directories do; no obstacle to translation goes away and none appears but wide new directories; each new page's recorded parent entry points to it and can be accessed; only directories are written. |
| Mapping.MapThenTranslate | nvdebug/mmu.c:318-474 | After a successful request, whatever else cannot be accessed, an address of its page translates to the physical address requested for it if and only if 24 address bits suffice for its walk, old and new directories, the frame is below 2^36 and the address is the first of the page; before, if its walk needed but 24 bits, it was reported unmapped. |
| Mapping.OthersTranslateTheSame | nvdebug/mmu.c:318-474 | Every other address, and after any other result than 0 every address, translates as before, if 24 address bits suffice for its walk and for the new directories on it. |
| Collection.Decide | nvdebug/mmu.c:265-280 | What one round reads about a page decides its fate: the pass fails there exactly if the parent entry cannot be resolved; the page stays exactly if the pass is not forced and the page keeps its place. |
| Mmu.Gpu.ReadParent | nvdebug/mmu.c:269-275 | The recorded parent entry is read if it resolves and taken as zero if it is not mapped; it is an error exactly if it cannot be resolved. |
| Mmu.Gpu.FreePage | nvdebug/mmu.c:284-293 | The page is unmapped, zeroed and taken off the list, and nothing else changes. |
| Mmu.Gpu.GcPageDirectory | nvdebug/mmu.c:255-297 | The pass deals with the list from the oldest page up to one whose parent entry cannot be resolved, and fails there; the list afterwards is the rest and the survivors in their old order; without failure its length plus the result is the old length; memory differs exactly in the freed pages and the parent entries cleared. Unless it leaves an entry that points to a freed page, the state stays sound, an unforced pass changes no translation, and a forced one empties the list, as far as it comes, and unmaps exactly the addresses whose walk meets a cleared entry. |
| Collection.PassIsDone | nvdebug/mmu.c:255-297 | The state that the loop then ends in has all of these properties. |
| Collection.TreeRemainsExactly | nvdebug/mmu.c:269-293 | What a pass leaves of the tables is a tree if and only if it frees no page whose parent entry, in a directory that stays, points to it but is not mapped. |
| Collection.MappedIsGood | nvdebug/mmu.c:269-293 | It is a tree whenever the directories of recorded parent entries that lie in system memory are mapped. |
| Collection.PassIsComplete | nvdebug/mmu.c:265-280 | An unforced pass is transitively complete: a page that it comes to survives if and only if its parent entry can be read and still holds its address in 46 bits, and its parent, if that is on the list, survives. |
| Collection.PassThenTranslate | nvdebug/mmu.c:255-297 | After a pass, forward translation reports an address whose walk meets a cleared entry before an inaccessible directory as unmapped and every other as before, whenever 24 address bits suffice for its walk. |
| Collection.LookupAfter | nvdebug/mmu.c:280-294 | In every directory left, an address translates as before unless its walk meets a cleared entry, and then it is unmapped. |
| Collection.EnteringIsCut | nvdebug/mmu.c:280-282 | A forced pass unmaps every address whose walk enters a directory that it deals with. |
| Collection.ForcedCutsExactly | nvdebug/mmu.c:280-282 | It unmaps exactly those, provided every recorded parent entry that names its page is a directory entry pointing to it. |
| Runs.RunStaysAttached | nvdebug/mmu.c:318-474 | In every run of mapping and collection calls the table stays a tree, the list stays sound, and the recorded parent entry of every listed page points to it and can be accessed. |
| Runs.CollectInRun | nvdebug/mmu.c:255-297 | In such a run an unforced collection frees nothing; a forced one frees every listed page, returns how many, and unmaps exactly the addresses whose walk enters one of them. |
| Runs.MappedStays | nvdebug/mmu.c:255-474 | In every run without forced collections, a mapped address keeps its frame. |
| Runs.MapThenRun | nvdebug/mmu.c:255-474 | A mapping that returned 0 is still there after any further calls but forced collections. |
| Barrier.StepKeepsInv | cuda_scheduling_examiner_mirror/src/barrier_wait.c:56-72 | Every atomic step of every process keeps the invariant about counter, senses and progress. |
| Barrier.NoEarlyReturn | cuda_scheduling_examiner_mirror/src/barrier_wait.c:56-72 | For every n, k and interleaving: nobody has returned from the k-th call before all have begun theirs. |
| Barrier.CounterInRange | cuda_scheduling_examiner_mirror/src/barrier_wait.c:60-64 | The counter stays between 0 and n. |
| Barrier.SenseFlipsForAll | cuda_scheduling_examiner_mirror/src/barrier_wait.c:65-70 | The shared sense flips only while every other process spins for that very flip, so nobody misses one. |
| Barrier.NeverAllSpinning | cuda_scheduling_examiner_mirror/src/barrier_wait.c:68-70 | No reachable state has all processes spinning on an unmatched sense. |
| Barrier.SomebodyMoves | cuda_scheduling_examiner_mirror/src/barrier_wait.c:56-72 | While somebody spins in vain, somebody else of the same episode has not arrived or can take a step that counts. |
| Barrier.BusyRunsEnd | cuda_scheduling_examiner_mirror/src/barrier_wait.c:56-72 | If everybody makes k calls, any schedule has at most 4nk steps that are not idle spins, and when none is left all have returned from all their calls. |
| Benchmarks.HistoryInv | cuda_scheduling_examiner_mirror/src/task_host.c:465-552 | In every run the number of barrier calls begun by each benchmark is determined by where it stands and how often it has iterated, and the barrier's invariant holds. |
| Benchmarks.OneStep | cuda_scheduling_examiner_mirror/src/task_host.c:471-552 | In every history, what a benchmark does next: read the clock when its loop begins; at the head of the loop leave it if its iteration limit is reached, its time since then is up or the flag is set, else iterate; set the flag after the loop if it is a terminator. |
| Benchmarks.ClockStarts | cuda_scheduling_examiner_mirror/src/task_host.c:471 | The time limit counts from the moment when the loop began. |
| Benchmarks.NoFurtherIteration | cuda_scheduling_examiner_mirror/src/task_host.c:472-484 | From the first moment when its limit is reached, its time is up or the flag is set at the head of its loop, a benchmark completes no further iteration. |
| Benchmarks.LeavesForReason | cuda_scheduling_examiner_mirror/src/task_host.c:472-484 | A benchmark that has left its loop was at its head at some moment when its limit was reached, its time was up or the flag was set. |
| Benchmarks.FlagMeans | cuda_scheduling_examiner_mirror/src/task_host.c:543-545 | The flag is set exactly if some terminator has left its loop and signalled that. |
| Benchmarks.CleanupWaitsForAll | cuda_scheduling_examiner_mirror/src/task_host.c:546-552 | Without synchronised iterations no benchmark reaches its cleanup before all have left their loops, whatever ended these. |
| Benchmarks.IterationsInStep | cuda_scheduling_examiner_mirror/src/task_host.c:484-491 | With synchronised iterations, the iteration counts of any two benchmarks differ by at most one at any time. |
| Benchmarks.CleanupWaitsInStep | cuda_scheduling_examiner_mirror/src/task_host.c:484-552 | With synchronised iterations and only iteration limits, of two benchmarks with equal limits neither reaches its cleanup before the other has left its loop. |
| Benchmarks.FinishingNeedsEqualLimits | cuda_scheduling_examiner_mirror/src/task_host.c:472-552 | With synchronised iterations and only iteration limits, all can finish only if the limits are equal; then each has made limit + 2 barrier calls. |
| Benchmarks.NobodyLeftWaiting | cuda_scheduling_examiner_mirror/src/task_host.c:465-552 | With one shared limit, until all are done some benchmark can make a step that is not an idle spin. |
| Benchmarks.AllFinish | cuda_scheduling_examiner_mirror/src/task_host.c:465-552 | With one shared limit, every schedule has a bounded number of steps that change anything, and when none is left all benchmarks are done, with all their iterations and limit + 2 barrier calls each. |
| Benchmarks.NobodyWaitsUnsynchronised | cuda_scheduling_examiner_mirror/src/task_host.c:465-552 | Without synchronised iterations, whatever the limits, until all are done some benchmark can make a step that is not an idle spin. |
| Benchmarks.AllFinishUnsynchronised | cuda_scheduling_examiner_mirror/src/task_host.c:465-552 | Without synchronised iterations: from a moment when every benchmark has an iteration limit, its time is up, or the flag is set, a bounded number of steps changes anything in any history, and when none is left all are done. |
| Benchmarks.TerminatorStopsAll | cuda_scheduling_examiner_mirror/src/task_host.c:481-545 | A terminator that has signalled brings about such a moment for all. |
| TpcLists.ParseList | libsmctrl/nvtaskset.c:132-181 | Working in place on the text, the parser returns what the character-by-character definition gives, with the right error, and has overwritten nothing but separators. |
| TpcLists.AddToken | libsmctrl/nvtaskset.c:149-169 | A number or range adds exactly the bits of the units it names, or is rejected as no ID or a malformed range. |
| TpcLists.AtoiDec | libsmctrl/nvtaskset.c:149 | Printing a number in decimal and reading it back is the identity. |
| TpcLists.AtoiReads | libsmctrl/nvtaskset.c:149 | A printed number is read back also after white space and a plus sign, and before anything that is no digit. |
| TpcLists.ListParses | libsmctrl/nvtaskset.c:132-181 | The text of any list of numbers and ascending ranges of existing units parses to exactly the bits of the units named. |
| TpcLists.ListRejected | libsmctrl/nvtaskset.c:150-155 | In any other list the first item that is not of this kind decides the error: no such ID if its last number names no unit, else a malformed range. |
| TpcLists.ComposeList | libsmctrl/nvtaskset.c:184-220 | For every nonempty mask the text with its NUL fits the static buffer and parses back to the mask, except that it is rejected as a malformed range if and only if bits 126 and 127 are both set; for the empty mask the code leaves its buffer. |
| TpcLists.AllPrinted | libsmctrl/nvtaskset.c:216-219 | What is left after stripping the last comma parses back as stated. |
| Gpcs.IsPartition | libsmctrl/libsmctrl.c:549-575 | For any registers, the TPC sets of the GPCs are pairwise disjoint and together are exactly the TPCs 0 to n-1; those of the 12 GPCs that have a place in the table are if and only if no register names another. |
| Gpcs.PackedIsRead | libsmctrl/libsmctrl.c:560-564 | Registers packed from one byte for each TPC, lowest first, assign to each GPC exactly the TPCs in whose byte it is the upper half; all have a place exactly if these numbers are below 12. |
| Gpcs.SumIsZero | libsmctrl/libsmctrl.c:576-581 | The sum of the registers read is zero exactly if all of them are. |
| Gpcs.ReadMapping | libsmctrl/libsmctrl.c:549-566 | The loops add to each GPC's place exactly the TPCs that the registers assign to it, past the device's row for GPCs 12 to 15, reading each needed register once. |
| Gpcs.MapTpcs | libsmctrl/libsmctrl.c:546-584 | Whatever the table held before, the device's row is the map; what follows the row gains the TPCs of GPCs without a place; the call fails exactly if there is such a GPC or the registers read are all zero. |
| Gpcs.FindGpcs | libsmctrl/nvtaskset.c:228-237 | The loop finds a set of GPCs whose union is the mask, namely all GPCs inside it, and fails if and only if there is no such set. |
| Gpcs.UnionDetermines | libsmctrl/nvtaskset.c:231 | If no GPC is empty, a set of GPCs can be read off the union of their masks. |
| Gpcs.UnionNames | libsmctrl/nvtaskset.c:230-235 | Then the GPCs inside the union of some GPCs are exactly those. |
| Gpcs.ParseGpcs | libsmctrl/nvtaskset.c:157-166 | A GPC list parses to the union of the GPCs that it names as a list of numbers, with the same errors. |
| Gpcs.ComposeGpcList | libsmctrl/nvtaskset.c:224-239 | The GPC list printed for a mask parses back to that mask and names exactly the GPCs inside it (so, with no GPC empty, the ones it was made of), and exactly the masks that are no union of GPCs are rejected. |
| HexMasks.ExportedSetsComplement | libsmctrl/nvtaskset.c:394-396 | For every 128-bit mask the exported text fits 36 bytes, and the wrapper's start-up makes its complement the supreme mask. |
| HexMasks.PlainTextSetsMask | libsmctrl/libsmctrl.c:717-734 | Without a tilde, the printed mask is taken as it is, with or without prefix, in small letters or capitals. |
| HexMasks.SupremeBits | libsmctrl/libsmctrl.c:733-734 | The complement has exactly the bits that the mask has not. |
| HexMasks.Strtou128 | libsmctrl/libsmctrl.c:665-687 | The number that the longest run of hexadecimal digits after an optional prefix denotes, modulo 2^128, and where the run ends. |
| HexMasks.Setup | libsmctrl/libsmctrl.c:717-734 | The mask that the variable denotes, inverted after a tilde, 0 if unset; the process aborts exactly if text is left over. |
| LaunchMasks.Process.ControlCallback | libsmctrl/libsmctrl.c:104-146 | A launch gets the next mask if set, else what CUDA put there if set, else the global mask, joined with the supreme mask; a next mask is spent; large TMDs have TPCs from 64 on disabled; too old ones abort. |
| LaunchMasks.Process.ApplySupreme | libsmctrl/libsmctrl.c:139-146 | The supreme mask only adds disabled TPCs. |
| LaunchMasks.Process.LaunchKernel | libsmctrl/libsmctrl.c:86-150 | In every history of calls, the recorded set of disabled TPCs of each launch, those from 64 on included, is the one due by the calls before it. |
| LaunchMasks.NextDecides | libsmctrl/libsmctrl.c:126-146 | If the last call before a launch that concerns its thread's next mask set a nonempty one, the launch has exactly that mask and the last supreme mask disabled below 64. |
| LaunchMasks.StreamDecides | libsmctrl/libsmctrl.c:126-146 | If no next mask is pending, and the low half of the last mask set for the stream is not empty, the launch has exactly that and the last supreme mask disabled below 64. |
| LaunchMasks.GlobalDecides | libsmctrl/libsmctrl.c:126-146 | If neither is in force, it has exactly the last global and the last supreme mask disabled below 64. |
| LaunchMasks.UpperIsDisabled | libsmctrl/libsmctrl.c:104-113 | From 64 on all TPCs are disabled for every launch. |
| LaunchMasks.Process.SetGlobalMask | libsmctrl/libsmctrl.c:189-199 | The global mask in force is always the last one set. |
| LaunchMasks.Process.SetNextMask | libsmctrl/libsmctrl.c:202-212 | The next mask of a thread is the last one set since its last launch; other threads keep theirs. |
| LaunchMasks.Process.SetStreamMask | libsmctrl/libsmctrl.c:318-324 | The 64-bit call sets the low mask and disables every TPC from 64 on. |
| LaunchMasks.Process.SetSupremeMask | libsmctrl/libsmctrl.c:767-769 | The supreme mask in force is always the last one written. |
| LaunchMasks.SupremeWins | libsmctrl/libsmctrl.c:137-146 | In every history no launch has any of the 128 TPCs enabled that the supreme mask in force disables. |
| LaunchMasks.PartitionsIsolate | libsmctrl/libsmctrl.c:126-146 | If all 128-bit enable masks ever given to two processes are disjoint, no two of their launches share an enabled TPC. |
| Isolation.StartedDisjointStaysDisjoint | libsmctrl/nvtaskset.c:394-396 | End to end: of two processes started with disjoint enable masks, exported as text and set up by the wrapper, no two launches share an enabled TPC, whatever other masks they set. |
| Timelines.RunningIsDifference | cuda_scheduling_examiner_mirror/scripts/view_timelines.py:26-33 | Splitting and sorting block times loses nothing: the blocks running at a time are those started minus those ended. |
| Timelines.EndHasStart | cuda_scheduling_examiner_mirror/scripts/view_timelines.py:45-71 | The sweep never takes an end while no block is open: the order statistic behind the unreachable error and the counts that never go negative. |
| Timelines.SplitBlockTimes | cuda_scheduling_examiner_mirror/scripts/view_timelines.py:26-30 | Even positions are starts, odd ones ends. |
| Timelines.SweepTimes | cuda_scheduling_examiner_mirror/scripts/view_timelines.py:35-80 | On the sorted times of real blocks the loop ends without error, in a timeline with sorted times and counts that are never negative, which has the right value at every time. |
| Timelines.GetKernelTimeline | cuda_scheduling_examiner_mirror/scripts/view_timelines.py:18-80 | For blocks with 0 <= start <= end, the last entry at or before t is the thread count times the blocks with start <= t < end, and the error exit is unreachable; changes are abrupt: from one time to a later one the value stays, so that straight lines between the entries draw a step function. |
| Timelines.MergeTimelines | cuda_scheduling_examiner_mirror/scripts/view_timelines.py:82-130 | The merged timeline is sorted and at every time has the sum of the two values; if the changes of both are abrupt, so are its own. |
| Timelines.GetThreadTimeline | cuda_scheduling_examiner_mirror/scripts/view_timelines.py:132-145 | The whole timeline has at every time the sum over all kernels of thread count times running blocks, with abrupt changes; CPU records and the first record are skipped. |
| Runlists.SwitchIsExact | nvdebug/runlist_procfs.c:550-575 | If the target group shares no channel with other groups, exactly its channels end up enabled among the listed ones, whose other settings stay, except that before Ampere pending faults are reset; the registers of unlisted channels are untouched. |
| Runlists.SwitchIsExactIff | nvdebug/runlist_procfs.c:550-575 | In general the result is right for a listed channel if and only if the target group, when it lists the channel, is the last group to do so. |
| Runlists.LayoutGrows | nvdebug/runlist_procfs.c:576-577 | Advancing by one plus the length in the header leads from each header to the next one, or to the end. |
| Runlists.Channels.SetEnable | nvdebug/runlist_procfs.c:559-574 | By read, update and write before Ampere, and by one word that sets or clears since, both given field by field: the channel is enabled as asked, the other fields stay, except that the old way resets pending faults; nothing happens if the register cannot be read. |
| Runlists.Channels.SwitchGroup | nvdebug/runlist_procfs.c:556-575 | The channels of one group are set in order, up to the first one that cannot be read. |
| Runlists.Channels.SwitchToTsg | nvdebug/runlist_procfs.c:528-582 | The walk visits every group once and stops at the end of the list; it makes exactly the writes of the listed groups, in order, or those before the first unreadable channel; the error is exact. |

## Left out

- procfs and seq_file plumbing, kernel log output, register printing, interrupts and device probing: input and output only.
- The runlist printer: it depends on how often seq_file shows an entry again.
- V1 and V3 page tables: V1 repeats the walk with two levels and no mapping.
- Peer apertures and BAR2 accesses, and the kernel's page allocator, DMA and I/O MMU: the model has their outcomes and a set of mapped pages. A page leaked by a DMA mapping error is not tracked, as in the driver, and so not modelled.
- Races on the window register and on page tables: each call runs alone.
- Ill-formed tables: mapping and collection are specified for trees; forward translation and search for all memories.
- The hardware's walk takes the upper word of a 16-byte level-3 entry for the whole entry: the lower half, which can name a page table for big pages, is ignored, except that mapping writes a 2 MiB page there too.
- Mmu.Gpu.SearchPageDirectory: requires that no address leads the search below the last level (`TreeIsSearchable` says which trees do), where the code reads past the arrays of the table geometry.
- Barrier: torn or reordered accesses, a failing allocation in BarrierCreate, and `value` being declared atomic; the barrier is a state machine on values because its steps interleave.
- Benchmarks: failing callbacks, warm-up, release times and logs; a benchmark that returns early from RunBenchmark leaves the others waiting at the next barrier.
- TpcLists.ParseList: `error()` ends the program, here the method returns; numbers that overflow `int` and a unit count of 0, where the bound check wraps around and the code goes on to read a null table or shift too far, are not modelled: C leaves both undefined.
- The fuse reading before the GPC map, with its 32-bit shift by 64 minus a count: the number of enabled TPCs is an input.
- CUDA's stream structures, driver callback registration, TMD offsets, MPS detection and library redirection: modelled only as "the stream's mask is in the TMD before the callback".
- Torn writes of the 128-bit supreme mask: each event is atomic.
- Runlists.Channels.SetEnable: write-only register bits are taken to read as zero, and writes of what was read to have no effect but the documented ones.
- Runlists.Channels.SwitchToTsg: runlists with channels outside any group, the user's number parsing, and the preempt and resubmit steps after the early return, which are unreachable.
- JSON configuration and logs, GPU kernels, clock synchronisation, plotting and the evaluation scripts.
