# LlamaOS/A kernel: a verified model

A Dafny model of the parts of the LlamaOS/A kernel that other code has to trust: who owns a physical frame, what a page
table translates, what a loaded program sees, which thread runs and on which stack, what a FAT32 file contains, what a
block request does with its descriptors, and what the keyboard queue, the slab allocator and the Internet checksum
promise. Operations that change state are classes and methods in the shape of the C++ code; each is proved against a
specification over values, and the theorems are stated about that specification for all inputs, all runs and all
interleavings.

`dafny verify dfyconfig.toml` checks the whole project.

| files | subject |
|---|---|
| `Machine`, `Bitmap`, `Sequences`, `LittleEndian`, `Ram`, `PagingTypes`, `PageTableEntry` | 64-bit arithmetic, bit words, little-endian fields, physical memory, page-table entries |
| `Regions`, `Pmm`, `BootMap`, `SampleBoot` | reserved-memory tracker, physical frame allocator, boot-time construction from the firmware's map |
| `PageTables`, `Ownership`, `BootTables`, `Vmm`, `AddressSpaces` | page-table forests, the address-space manager, life cycle of an address space |
| `UserMemory`, `Elf`, `ElfFormat`, `LoadCost`, `LoadOrder`, `Loader`, `Programs`, `SampleFiles` | user pointer validation, ELF64 validation, what a load costs and where it stops, loading |
| `ReadyQueue`, `Threads`, `SchedulerSafety`, `Fairness`, `SchedulerLaws`, `StackAllocator`, `Scheduler` | threads, scheduling, kernel stacks |
| `FatDisk`, `DiskLayout`, `FatChains`, `Fat32`, `FileContent`, `Fat32File`, `Fat32Node`, `FileTheorems`, `FileRuns`, `SampleVolumes` | FAT32 volume and files |
| `Virtqueue`, `VirtioBlock` | VirtIO descriptors and the block driver, against any device |
| `InputQueue`, `Kalloc`, `KernelMemory`, `Kernel`, `Checksum` | lock-free key queue, slab allocator and its pages, heap and address spaces on one frame allocator, RFC 1071 checksum |

The main results:

* **Translation.** A successful map changes exactly one page: in the lower half of one root, in the kernel half of
  exactly the roots that share its table. A failing map, out of memory halfway down included, changes no translation
  of any root, and takes exactly one frame for each table that joined. In the lower half the flags of a leaf are the
  rights of its whole path, so a buffer is accepted exactly when user code could make the access to every byte.
* **Ownership.** Create, any sequence of lower-half maps, destroy: bitmap and counters are what they were, and
  every other root translates as it did. The teardown reads a table only while its frame is allocated.
* **Memory map.** The normalised region table is ordered and disjoint, reserved wins over available even when the
  table overflows. In the numbers of the firmware's own map, a frame free after `init` lies whole in usable RAM and no
  reservation has a byte of it; while the table has room, every such frame is free.
* **Programs.** After a successful load every byte of every segment reads back as the file's, with the rights its header
  bytes spell.
  In a fresh address space the outcome follows from the file and the number of free frames: it loads exactly when it
  wants no page twice and there are frames for a root, its pages and the distinct tables above them.
* **Scheduling.** Every step is proved against a flat law that says what becomes of every thread; each change of a
  thread's state has exactly one cause. Every run from `start` keeps all conditions of the kernel's own
  `verify_invariants`, conserves stacks, and runs a ready thread with k threads ahead of it within 2(k+1) timer ticks;
  a thread that gives way is never lost and runs again.
* **Files.** Any run of reads, writes and clearings over any number of files answers and ends as the same run over byte
  arrays on a disk with that many free clusters, short and refused writes included, over a FAT that stays a set of
  disjoint chains with every file's chain among them. Whatever the clusters hold beyond a file's end, the run is
  determined by where it starts, and a directory entry matches its file throughout exactly when no operation loses it.
* **Kernel heap.** Over the frame allocator `kmalloc` fails exactly when pages are needed and there are none, blocks
  never touch a free frame, and `kfree` returns exactly the frames of the block. Heap and address spaces share the
  frame allocator: each keeps the other's invariant under every operation.
* **Kernel stacks.** From the boot tables on, every address space shows every kernel stack and no guard page.

Where a promise turned out not to hold, the code was followed and the exact condition proved:

* A reservation that ends within the last page below 2^64 loses its rounded end to wrap-around
  (`Regions.HonouredExactlyWhenRoundingFits`, with `Regions.LostReservation` as the failing family).
* Frame bitmap and tracker disagree exactly when an empty reserved firmware entry starts inside a usable managed page
  (`Pmm.AgreesExactly`; one map in `SampleBoot.StrayMapDisagrees`). Once they disagree, `free_page` accepts a page
  that was never handed out as soon as any page is, and the counters part from the bitmap
  (`Pmm.PhysicalMemoryManager.FreePage`; that map in `SampleBoot.FreesForeignPage`).
* Below 2 GiB a frame has a direct-map address exactly outside 512 MiB to 1 GiB (`BootTables.DirectMapExactly`,
  `BootTables.FrameOutOfReach`): the manager writes its tables through that map, so every result about it is for
  machines whose usable frames have one, `Vmm.SmallRam`.
* Of all pages the kernel maps exactly those between 1 MiB and the text section are both writable and executable
  (`BootTables.WritableExecutableExactly`, `BootTables.EarlyBootPage`).
* The page below the user stack is a guard page exactly if no segment claims it (`Programs.GuardPageExactly`; one file
  in `SampleFiles.GuardClaimed`).
* A page that cannot be mapped during a load leaks one frame: exactly when the first page to fail got its frame and is
  wanted a second time, or the frames left do not suffice for its tables (`Programs.LoadThenDestroy`; one file in
  `SampleFiles.OverlapAccepted`).
* `block` keeps the scheduler's invariant exactly for threads in use other than the idle thread, and for the idle thread
  exactly while it runs and nobody waits (`SchedulerSafety.BlockExactly`).
* A write past the end of a file leaves a gap that reads as zeroes exactly if the last cluster held zeroes there
  (`FileTheorems.GapIsZeroExactly`; one volume in `SampleVolumes.GapShowsOldBytes`).
* A write is in its place and has its size exactly when it ends below 4 GiB (`Fat32Nodes.InPlaceExactly`,
  `SampleVolumes.WriteWraps`); a read whose window wraps round 2^64 runs past the end of the file
  (`Fat32Nodes.Fat32VNode.Read`, `SampleVolumes.ReadPastTheEnd`).
* Truncation to a size other than zero keeps the file in order exactly when its chain holds the size cut to 32 bits
  (`Fat32Nodes.Fat32VNode.Truncate`, `SampleVolumes.TruncateOutgrows`).
* The directory entry keeps matching the file under every write except exactly one to a file without clusters that
  takes the last free ones and then fails in the seek (`Fat32Nodes.Fat32VNode.Write`; one volume in
  `SampleVolumes.FirstClusterLost`; an entry that records the reserved cluster 1 counts as a file without clusters).
* A block of `kmalloc` has room for the request exactly for sizes below 2^64 - 16 (`Kalloc.KernelHeap.Kmalloc`,
  `Kalloc.WrappedRequest`).

## Model

| member | source | states |
|---|---|---|
| Regions.BubblePass | kernel/memory/reserved_regions.cpp:170-179 | one pass of the in-place sort settles one more entry at the end and permutes the table |
| Regions.SortByStart | kernel/memory/reserved_regions.cpp:299-308 | the table ends sorted by start address and is a permutation of what it was |
| Regions.MergeOne | kernel/memory/reserved_regions.cpp:181-208 | one merge step equals the list specification; the 128-slot guard drops nothing |
| Regions.MergeSorted | kernel/memory/reserved_regions.cpp:221-243 | the merge loop refines the recursive merge, whose output is shown disjoint, ordered and equal in coverage |
| Regions.ClipInto | kernel/memory/reserved_regions.cpp:251-282 | a usable region loses exactly its overlap with one reservation, in up to two pieces |
| Regions.SubtractOne | kernel/memory/reserved_regions.cpp:245-288 | one reservation is cut out of every usable region; no piece is lost to the slot limit |
| Regions.SubtractAll | kernel/memory/reserved_regions.cpp:245-288 | all reservations are cut out, in table order |
| Regions.CombineIsNormalForm | kernel/memory/reserved_regions.cpp:290-308 | reservations plus the pieces that fit, sorted, are the normal form of the raw table |
| Regions.ReservedMemoryTracker.Normalize | kernel/memory/reserved_regions.cpp:118-309 | the table is ordered and disjoint; an address is reserved exactly when a rounded raw reservation covers it; usable ones are available and unreserved; nothing usable is missing while the table is not full; in raw bytes this is UsableExactly |
| Regions.ReservedMemoryTracker.AddRegion | kernel/memory/reserved_regions.cpp:11-25 | refused exactly when empty or full; otherwise the raw table grows by the region and is normalised again |
| Regions.ReservedMemoryTracker.Populate | kernel/memory/reserved_regions.cpp:27-100 | the raw table holds the explicit reservations and every non-empty firmware entry that fits, normalised |
| Regions.ReservedMemoryTracker.RegisterPmmBitmap | kernel/memory/reserved_regions.cpp:102-116 | the bitmap's pages are registered and the table normalised; a refusal changes nothing |
| Regions.ReservedMemoryTracker.IsReserved | kernel/memory/reserved_regions.cpp:311-320 | true exactly outside the usable regions: unknown addresses count as reserved |
| Regions.ReservedMemoryTracker.OverlapsReserved | kernel/memory/reserved_regions.cpp:322-334 | true exactly when the range wraps or some address in it is in a reserved region |
| Regions.ReservedMemoryTracker.IsRangeAvailable | kernel/memory/reserved_regions.cpp:336-346 | true exactly when one usable region holds the whole non-empty range, and then every address of it is usable |
| Regions.ImportedMembers | kernel/memory/reserved_regions.cpp:64-97 | importing the firmware map keeps what was there and adds every non-empty entry |
| Regions.ReservationWins | kernel/memory/reserved_regions.hpp:10-12 | no page touched by a reservation is ever usable, whatever else is registered and even when the table overflows |
| Regions.UsableIsRam | kernel/memory/reserved_regions.cpp:131-168 | a page is usable only if one registered entry of usable RAM holds every byte of it |
| Regions.UsableExactly | kernel/memory/reserved_regions.cpp:118-309 | in start and length as registered: a page is usable exactly if one usable entry holds all of it and no reservation has a byte of it, while nothing was cut off and no reservation ends in the last page |
| Regions.LastPageNeverUsable | kernel/memory/reserved_regions.cpp:131-168 | the last page of the address space is never classed as usable |
| Regions.HonouredExactlyWhenRoundingFits | kernel/memory/reserved_regions.cpp:131-168 | a reservation is honoured in every table exactly when rounding its end up does not wrap |
| Regions.LostReservation | kernel/memory/reserved_regions.cpp:131-168 | for every reservation whose end wraps, a table in which one of its pages stays usable |
| Regions.OrderIndependent | kernel/memory/reserved_regions.cpp:118-309 | without overflow, what is usable and what is reserved does not depend on the order of registration |
| Pmm.AllWordsVisited | kernel/memory/pmm.cpp:184-214 | going once round the bitmap words from the hint visits every frame |
| Pmm.FirstFitFound | kernel/memory/pmm.cpp:184-214 | the lowest clear bit of the first word that is not full is the first fit of the per-frame search |
| Pmm.ExhaustedExactly | kernel/memory/pmm.cpp:185-187 | the free counter is zero exactly when no frame is free |
| Pmm.TakingKeepsAccounts | kernel/memory/pmm.cpp:278-283 | taking a free run keeps total = reserved + free + allocated and free = clear bits |
| Pmm.FreeingKeepsAccounts | kernel/memory/pmm.cpp:239-250 | returning an allocated frame keeps the accounts, and the allocation counter cannot underflow |
| Pmm.ManagedGeometry | kernel/memory/pmm.cpp:60-66 | the 2 MiB rounding makes the frame count a multiple of 512 and the bitmap whole 64-bit words |
| Pmm.RawTableHolds | kernel/memory/pmm.cpp:140-164 | with up to 64 firmware entries the tracker holds low memory, kernel, Multiboot2 block and every entry, with room for the bitmap |
| Pmm.AgreesExactly | kernel/memory/pmm.cpp:155-164 | bitmap and tracker agree exactly when no empty reserved entry starts inside a usable managed page |
| Pmm.StraysOverride | kernel/memory/pmm.cpp:155-164 | marking the pages inside which empty entries start, over the tracker's classification, gives the bitmap after `init` |
| SampleBoot.StrayMapDisagrees | kernel/memory/pmm.cpp:155-164 | one boot map after which a frame is usable to the tracker and in use in the bitmap |
| SampleBoot.StrayPlacement | kernel/memory/pmm.cpp:68-108 | with that map `init` puts the bitmap right behind the kernel |
| SampleBoot.FreesForeignPage | kernel/memory/pmm.cpp:216-253 | `init` with that map, one allocation, and `free_page` of the page at 3 MiB succeeds, though it was never handed out; counters and bitmap disagree from then on |
| BootMap.RawMembers | kernel/memory/reserved_regions.cpp:27-100 | the raw table holds the first megabyte, the kernel, the information block, the bitmap and every non-empty firmware entry, and nothing else |
| BootMap.FreeExactly | kernel/memory/pmm.cpp:33-182 | in the numbers of the firmware map: a frame free after `init` lies whole in an entry of usable RAM and no byte of it belongs to the first megabyte, the kernel, the information block, the bitmap or another entry; while the table has room, every such frame is free |
| BootMap.Boot | kernel/memory/pmm.cpp:33-182 | populate and `init` together: the same for every frame, and every frame of usable RAM is managed |
| BootMap.MarksWhatItMeets | kernel/memory/pmm.cpp:15-31 | a reserved range marks exactly the frames with a byte in it |
| Pmm.OverrideChangesNothing | kernel/memory/pmm.cpp:140-164 | reserving again what a tracked reservation covers flips no bit |
| Pmm.PhysicalMemoryManager.FindFree | kernel/memory/pmm.cpp:189-197 | the word-wise search returns the first free frame in hint order, or proves every frame in use |
| Pmm.PhysicalMemoryManager.AllocFrame | kernel/memory/pmm.cpp:184-214 | takes the first fit, moves the hint, keeps the accounts, whether or not bitmap and tracker agree; null exactly when forced or exhausted |
| Pmm.PhysicalMemoryManager.AllocPage | kernel/memory/pmm.cpp:184-214 | as AllocFrame, with the frame zeroed inside the direct map and nothing changed on failure |
| Pmm.PhysicalMemoryManager.MayFree | kernel/memory/pmm.cpp:216-243 | the validation accepts exactly aligned addresses of frames in use that the tracker classes as usable, while anything is allocated; where bitmap and tracker agree, exactly frames handed out and not yet returned, and the underflow guard never fires |
| Pmm.PhysicalMemoryManager.GiveBack | kernel/memory/pmm.cpp:245-250 | exactly one bit is cleared and the hint moves down to it if lower; the accounts hold afterwards exactly if the frame had been handed out |
| Pmm.PhysicalMemoryManager.FreePage | kernel/memory/pmm.cpp:216-253 | where bitmap and tracker agree, succeeds exactly on allocated frames; in general also on frames marked in use that the tracker calls usable; clears exactly that bit, keeps the accounts exactly if the frame had been handed out, otherwise changes nothing |
| Pmm.PhysicalMemoryManager.FindRun | kernel/memory/pmm.cpp:268-294 | the lowest free run of the asked length inside a range, or proof that there is none |
| Pmm.PhysicalMemoryManager.FindBestRun | kernel/memory/pmm.cpp:268-319 | the lowest run from the hint on, else the lowest wholly below it, else none exists |
| Pmm.PhysicalMemoryManager.AllocRun | kernel/memory/pmm.cpp:264-323 | marks exactly that run and moves the hint past it |
| Pmm.PhysicalMemoryManager.AllocPages | kernel/memory/pmm.cpp:255-323 | null exactly when asked for nothing, too few frames, forced or no run; otherwise a free run becomes allocated and, inside the direct map, zeroed |
| Pmm.PhysicalMemoryManager.FreePages | kernel/memory/pmm.cpp:325-342 | succeeds exactly when every frame of the run is allocated; on failure exactly the allocated frames it reaches are freed, with 64-bit addresses |
| Pmm.PhysicalMemoryManager.FreeEach | kernel/memory/pmm.cpp:334-341 | the loop frees each allocated frame it reaches and reports whether all were |
| Pmm.PhysicalMemoryManager.ReserveRange | kernel/memory/pmm.cpp:15-31 | sets exactly the bits of the managed frames the range touches |
| Pmm.PhysicalMemoryManager.HighestUsable | kernel/memory/pmm.cpp:43-59 | the highest end among usable firmware entries, attained by one of them |
| Pmm.PhysicalMemoryManager.PlaceInEntry | kernel/memory/pmm.cpp:76-104 | the lowest page-aligned place in the entry clear of the Multiboot2 block and every reservation, or proof that there is none |
| Pmm.PhysicalMemoryManager.FindPlacement | kernel/memory/pmm.cpp:68-108 | the lowest place in the first entry that has one; a refusal means no entry has any |
| Pmm.PhysicalMemoryManager.ClearUsable | kernel/memory/pmm.cpp:116-138 | from an all-ones bitmap, a bit is set exactly when the tracker does not class the frame as usable |
| Pmm.PhysicalMemoryManager.ReserveTracked | kernel/memory/pmm.cpp:140-154 | one override of a tracked range leaves the bitmap unchanged |
| Pmm.PhysicalMemoryManager.ReserveFirmware | kernel/memory/pmm.cpp:155-164 | the firmware overrides set exactly the bits of managed pages inside which an empty reserved entry starts |
| Pmm.PhysicalMemoryManager.ApplyOverrides | kernel/memory/pmm.cpp:140-164 | overrides (A) to (E) together set exactly those bits |
| Pmm.PhysicalMemoryManager.TallyFree | kernel/memory/pmm.cpp:166-172 | counts exactly the clear bits |
| Pmm.PhysicalMemoryManager.MarkBitmap | kernel/memory/pmm.cpp:116-164 | after filling and overrides a frame is in use exactly when the tracker does not class it as usable or an empty reserved entry starts inside it |
| Pmm.PhysicalMemoryManager.FinishInit | kernel/memory/pmm.cpp:166-182 | the counters agree with the bitmap and nothing is allocated; the full invariant holds exactly when the bitmap is the tracker's classification |
| Pmm.PhysicalMemoryManager.FillBitmap | kernel/memory/pmm.cpp:116-182 | steps 3 to 6 make bitmap and counters agree, and establish the full invariant exactly when no empty reserved entry starts inside a usable page |
| Pmm.PhysicalMemoryManager.Init | kernel/memory/pmm.cpp:33-182 | fails exactly without usable RAM or room for the bitmap, which goes to the lowest place there is; otherwise a frame is free exactly when the tracker classes it as usable and no empty reserved entry starts inside it, and the full invariant holds exactly when none does |
| PageTableEntry.EncodeRoundTrip | kernel/memory/vmm.hpp:75-99 | what `set` stores, `physical_address` and `flags` read back, on all 64-bit words |
| PageTableEntry.UserUpgradeRoundTrip | kernel/memory/vmm.cpp:205-207 | re-encoding an entry with User added changes the User bit and nothing else |
| PageTableEntry.SetDecodes | kernel/memory/vmm.hpp:75-99 | the word `set` stores decodes to the entry of the page-table model |
| PageTableEntry.FrameIsQuotient | kernel/memory/vmm.hpp:75-99 | the address bits `set` keeps are the address divided by 4096, cut to 40 bits |
| PageTableEntry.StoredIsEntryFor | kernel/memory/vmm.hpp:75-99 | on all 64-bit addresses and flags, the word `set` stores decodes to the entry the manager is modelled to write |
| PageTableEntry.UpgradeDecodes | kernel/memory/vmm.cpp:205-207 | the upgrade of the word decodes to the model's upgrade of the entry |
| PageTables.ReachedOnce | kernel/memory/vmm.cpp:177-257 | in a well-formed forest a page table is reached along one path, in the lower half from one root, in the kernel half through one shared table |
| PageTables.LinkTableKeepsWalks | kernel/memory/vmm.cpp:196-244 | linking an empty table is invisible to every walk from every root |
| PageTables.UpgradeKeepsWalks | kernel/memory/vmm.cpp:205-242 | adding User to an intermediate entry changes no translation |
| PageTables.LeafWrite | kernel/memory/vmm.cpp:246-256 | writing a page-table entry changes exactly the walks that end in it |
| PageTables.LinkTableSound | kernel/memory/vmm.cpp:196-244 | linking keeps the forest sound when every level above admits user access |
| PageTables.UpgradeSound | kernel/memory/vmm.cpp:205-242 | the upgrade keeps the forest sound |
| PageTables.LeafSound | kernel/memory/vmm.cpp:246-256 | writing a leaf keeps the forest sound |
| PageTables.LeafFlagsAreRights | kernel/memory/vmm.cpp:190-253 | in the lower half the flags of a leaf equal the effective rights of all four levels |
| PageTables.LeafShared | kernel/memory/vmm.cpp:246-256 | a leaf written below one root shows under exactly the roots that share the table |
| PageTables.LeafMaps | kernel/memory/vmm.cpp:177-257 | descending and then writing the leaf maps exactly one page, under exactly the roots that share the table; in the lower half one |
| PageTables.ClearUnmaps | kernel/memory/vmm.cpp:309-354 | clearing the leaf unmaps exactly that page, under exactly the roots that share the table |
| PageTables.ExtendsTrans | kernel/memory/vmm.cpp:196-244 | growing the forest without changing a translation composes over the levels |
| PageTables.StepDeepens | kernel/memory/vmm.cpp:196-244 | linking one table takes the paths through it, and no others, exactly one level deeper |
| PageTables.DeepenedTrans | kernel/memory/vmm.cpp:190-244 | over a descent a path gains exactly the tables it shares with the path descended |
| PageTables.SameDepth | kernel/memory/vmm.cpp:190-244 | writing page-table entries or data leaves every path as deep as it was |
| BootTables.BootSound | kernel/memory/vmm.cpp:27-171 | the five boot tables form a sound forest |
| BootTables.WritableExecutableExactly | kernel/memory/vmm.cpp:56-166 | of all pages of all sizes in the boot tables, exactly those of early boot code are both writable and executable |
| BootTables.KernelRights | kernel/memory/vmm.cpp:56-166 | every page the kernel maps: text not writable, constants neither writable nor executable, everything else writable, nothing for user code |
| BootTables.EarlyBootPage | kernel/memory/vmm.cpp:112-143 | one link layout whose first kernel page is writable and executable |
| BootTables.BootWalk | kernel/memory/vmm.cpp:56-166 | what every address translates to after boot |
| BootTables.DirectMapExactly | kernel/memory/vmm.cpp:145-151 | below 2 GiB a frame is shown at its direct-map address exactly outside 512 MiB to 1 GiB, where nothing is mapped |
| BootTables.FrameOutOfReach | kernel/memory/memory_layout.hpp:50 | the frame at 512 MiB has no direct-map address |
| Vmm.PathIdentifiesPage | kernel/memory/memory_types.hpp:105-149 | two canonical addresses with the same four indices lie in the same page |
| Vmm.PathSpellsAddress | kernel/memory/memory_types.hpp:105-149 | a canonical address is its four indices times 512 GiB, 1 GiB, 2 MiB and 4 KiB, plus its offset |
| Vmm.DirectPathOf | kernel/memory/memory_layout.hpp:50 | `phys_to_virt` of a frame below 2 GiB has the direct-map path of the boot tables |
| Vmm.VirtualMemoryManager.EnsureTable | kernel/memory/vmm.cpp:190-207 | one level: an existing table, upgraded if needed, at no cost, or a fresh empty one for exactly one frame, its entry present, writable and for user code as asked; failure only when no frame is available, with nothing changed |
| Vmm.VirtualMemoryManager.DescendToPd | kernel/memory/vmm.cpp:190-224 | the first two levels change no translation and lead to the directory of the path, for one frame per table that joined; they stop early exactly when a table is missing and no frame is left |
| Vmm.VirtualMemoryManager.DescendToPt | kernel/memory/vmm.cpp:190-244 | all levels change no translation, for one frame per table that joined; a collision is reported exactly when a large page is in the way, success exactly when the path is complete |
| Vmm.VirtualMemoryManager.MapChecked | kernel/memory/vmm.cpp:188-257 | each status exactly when it applies; success maps exactly one page, any failure leaves every translation as it was; the frames used are exactly the tables that joined |
| Vmm.VirtualMemoryManager.MapPageInTable | kernel/memory/vmm.cpp:177-257 | as MapChecked with the argument checks, each status exactly: one page showing frame paddr / 4096 (below 2^52 all of it) with the given flags, in the lower half of one root and otherwise of the roots sharing the table, or no translation of any root; the frames used are exactly the tables that joined |
| Vmm.ChargedStep | kernel/memory/vmm.cpp:196-244 | linking a table on the way costs one frame and makes that path, and those sharing it, one level deeper |
| Vmm.VirtualMemoryManager.UnmapPage | kernel/memory/vmm.cpp:309-354 | status by what the page shows; success unmaps exactly that page, anything else changes nothing |
| Vmm.VirtualMemoryManager.Translate | kernel/memory/vmm.cpp:356-414 | finds a page exactly when the walk from CR3 does, with its physical address, small or large, and the flags of its entry |
| Vmm.MapThenTranslate | kernel/memory/vmm.cpp:177-414 | after a successful map in the active address space every byte of the page is found at its place behind the given physical address, with the given flags |
| Vmm.VirtualMemoryManager.ReadEntry | kernel/memory/vmm.cpp:281-305 | the teardown reads an entry only from a frame that is still allocated |
| Vmm.VirtualMemoryManager.FreeEntry | kernel/memory/vmm.cpp:281-305 | a branch is freed children first; exactly its frames become free |
| Vmm.VirtualMemoryManager.FreeStep | kernel/memory/vmm.cpp:281-305 | one iteration frees exactly the branch behind one entry and leaves the rest readable |
| Vmm.VirtualMemoryManager.FreeBelow | kernel/memory/vmm.cpp:281-305 | the nested loops free exactly what lies below a table |
| Vmm.VirtualMemoryManager.DestroyUserAddressSpace | kernel/memory/vmm.cpp:278-307 | exactly the frames the address space owns are returned and every other root translates as it did; the kernel's root and null are refused |
| Vmm.VirtualMemoryManager.FillUserRoot | kernel/memory/vmm.cpp:266-274 | the new root has an empty lower half and the kernel's upper half |
| Vmm.VirtualMemoryManager.CreateUserAddressSpace | kernel/memory/vmm.cpp:259-276 | null exactly when no frame is available; otherwise a fresh root, for one frame, that shows the kernel and has no table below it in the lower half, all other translations unchanged |
| Vmm.VirtualMemoryManager.FillLargePages | kernel/memory/vmm.cpp:70-74 | exactly the entries asked for become 2 MiB pages of consecutive physical memory |
| Vmm.VirtualMemoryManager.FillFirstPages | kernel/memory/vmm.cpp:102-143 | the first 2 MiB are mapped page by page with the rights of their sections |
| Vmm.VirtualMemoryManager.AllocTables | kernel/memory/vmm.cpp:37-98 | five zeroed frames exactly when five are free, otherwise none taken |
| Vmm.VirtualMemoryManager.ReturnAll | kernel/memory/vmm.cpp:76-98 | the frames already taken go back |
| Vmm.VirtualMemoryManager.Install | kernel/memory/vmm.cpp:56-166 | the filled tables satisfy the manager's invariant |
| Vmm.VirtualMemoryManager.Init | kernel/memory/vmm.cpp:27-171 | succeeds exactly with no-execute support and five free frames; then the boot layout holds and a frame is shown at its direct-map address exactly when it lies outside the hole, otherwise the bitmap is unchanged |
| Ownership.WithoutSound | kernel/memory/vmm.cpp:278-307 | removing a whole address space leaves a sound forest |
| Ownership.WithoutKeepsWalks | kernel/memory/vmm.cpp:278-307 | walks from the remaining roots never enter a removed table |
| Ownership.NewRootSound | kernel/memory/vmm.cpp:259-276 | a root that shares the kernel's upper half keeps the forest sound |
| Ownership.MappedLeafOwned | kernel/memory/vmm.cpp:246-256 | a page mapped to a fresh frame keeps every leaf owned by its address space |
| AddressSpaces.MapFresh | kernel/memory/vmm.cpp:177-257 | allocate and map one lower-half page: exactly that page appears on a frame that was free, or no translation changes and the frame goes back; each status only for its reason, memory running out exactly measured by the tables missing on the path |
| AddressSpaces.MapAll | kernel/memory/vmm.cpp:177-257 | any sequence of such requests grows only the target and leaves every other root's translations |
| AddressSpaces.OwnedIsAdded | kernel/memory/vmm.cpp:278-307 | the frames below a root are exactly those added since it was created, and clearing them restores the bitmap |
| AddressSpaces.LifeCycle | kernel/memory/vmm.cpp:259-307 | create, any sequence of maps, destroy: forest, bitmap and counters are what they were, and every root translates as it did |
| UserMemory.RangeIsInterval | kernel/userland/user_memory.hpp:27-46 | the wrapping range test admits exactly the ranges of 1 byte to 16 MiB between 0x1000 and 0x800000000000 |
| UserMemory.CheckPage | kernel/userland/user_memory.cpp:23-40 | the flags `translate` reports decide the access exactly as all four levels of the path do |
| UserMemory.ValidateBuffer | kernel/userland/user_memory.cpp:11-80 | a read or write buffer is accepted exactly when it has 1 byte to 16 MiB, lies between 0x1000 and 0x800000000000, and user code could access every byte of it that way |
| UserMemory.ReadByte | kernel/userland/user_memory.cpp:101-104 | the byte behind a pointer whose page has been checked |
| UserMemory.ValidateString | kernel/userland/user_memory.cpp:82-109 | accepted exactly when a terminated readable string shorter than the limit starts there, with its length; no byte is read before its page is checked |
| Elf.ValidateHeader | kernel/userland/elf_loader.cpp:41-98 | an accepted header has a program table inside the file; the bounds error means it is not, wrap-around included |
| Elf.HeaderExactly | kernel/userland/elf_loader.cpp:41-98 | the header checks, in their order and with wrapping sums, admit exactly the well-formed headers |
| Elf.ChecksAreExact | kernel/userland/elf_loader.cpp:114-134 | the wrapping segment checks admit exactly the segments that fit file and user space |
| Elf.ValidateSegments | kernel/userland/elf_loader.cpp:100-153 | the verdict: header, else first segment that does not fit, else nothing to load, else entry not executable, else accepted |
| Elf.AcceptedFits | kernel/userland/elf_loader.cpp:100-153 | in an accepted file every loadable segment fits and the entry lies in an executable one |
| Elf.FillPage | kernel/userland/elf_loader.cpp:214-230 | the page-wise copy equals the byte-wise contents of the segment |
| ElfFormat.HeaderRead | kernel/userland/elf_loader.hpp:61-77 | entry point, table offset and table length are the little-endian numbers at bytes 24, 32 and 56 |
| ElfFormat.ProgramHeaderRead | kernel/userland/elf_loader.hpp:80-90 | program header fields are the little-endian numbers at their offsets in 56-byte records; bit 0 of byte 4 is execute, bit 1 write |
| ElfFormat.HeaderBytesExactly | kernel/userland/elf_loader.cpp:41-98 | the header checks accept exactly the well-made bytes, and every refusal names bytes that are wrong |
| ElfFormat.SegmentExactly | kernel/userland/elf_loader.cpp:114-134 | each verdict on a segment exactly, in unwrapped sums |
| ElfFormat.AcceptedExactly | kernel/userland/elf_loader.cpp:100-153 | a file is accepted exactly if its header bytes are well made, everything to be loaded is in the file and in user space, and execution starts in an executable segment |
| Loader.MapZeroed | kernel/userland/elf_loader.cpp:195-212 | one page of zeroes appears on a frame of its own, for that frame and exactly the tables it lacked, or nothing does; without a frame exactly when all are spent, mapping refused exactly when the page is taken or its tables cost more than is left |
| Loader.MapStuck | kernel/userland/elf_loader.cpp:203-212 | a mapping is refused when the place is taken, or when its tables used up the last frame |
| Loader.PlacePage | kernel/userland/elf_loader.cpp:192-231 | one page of a segment with its bytes and rights, other pages untouched, at its exact cost in frames |
| Loader.LoadSegment | kernel/userland/elf_loader.cpp:178-231 | all pages of the segment appear and no others, none of them there before; a refusal happens at one page, with exactly the pages below it in place, for the exact reason |
| Loader.LoadSegments | kernel/userland/elf_loader.cpp:173-232 | all loadable segments appear, every page from one of them, none wanted twice; a refusal happens at one page, with exactly the pages wanted before it in place, for the exact reason |
| Loader.LoadStack | kernel/userland/elf_loader.cpp:234-258 | the four stack pages appear, zeroed, writable, not executable; none was taken by a segment; a refusal happens at one page for the exact reason |
| LoadCost.CostNext | kernel/userland/elf_loader.cpp:195-212 | one more page costs its frame and the tables missing on its way, whatever was built before |
| LoadCost.BuiltNext | kernel/memory/vmm.cpp:190-244 | after mapping a page exactly its tables have joined those built so far |
| LoadCost.AllNeeded | kernel/memory/vmm.cpp:259-276 | in an empty lower half a set of pages needs one table for each distinct index prefix |
| LoadOrder.EarlierBefore | kernel/userland/elf_loader.cpp:173-258 | the pages wanted before one page grow along the loading order |
| LoadOrder.CleanAll | kernel/userland/elf_loader.cpp:173-258 | a load that places every page where nothing was wants none twice |
| LoadOrder.NeedGrows | kernel/userland/elf_loader.cpp:195-212 | more pages need more frames |
| LoadOrder.FineIsNotShort | kernel/userland/elf_loader.cpp:173-258 | with frames for everything and no page wanted twice, a load stops nowhere |
| LoadOrder.ShortIsNotBlocked | kernel/userland/elf_loader.cpp:195-212 | a number of free frames that runs out before some page never leaves a page with a frame and no place |
| Programs.Load | kernel/userland/elf_loader.cpp:155-276 | a rejected file changes nothing; otherwise exactly the image appears in the lower half of the target and no other translation changes; success means every page wanted is there, none wanted twice, and frames spent are the pages and their tables; failure means one page stopped it, with exactly the pages before it in place, for the exact reason |
| Programs.PlaceAll | kernel/userland/elf_loader.cpp:173-258 | the same for an accepted file: segments, then the stack |
| Programs.RootIsEmpty | kernel/memory/vmm.cpp:266-274 | a new root has no table and no page in its lower half |
| Programs.Outcome | kernel/userland/elf_loader.cpp:155-276 | in an empty space loaded, out of frames and mapping refused exclude one another, and each holds exactly under a condition on file and free frames |
| Programs.SegmentReadsBack | kernel/userland/elf_loader.cpp:155-276 | every byte of a loaded segment reads back as the file's byte or zero, with exactly the segment's rights on the whole path |
| Programs.FileReadsBack | kernel/userland/elf_loader.cpp:155-276 | the same in the bytes of the file: each byte from offset and file size as the header spells them, writable and executable exactly as bits 1 and 0 of its flag byte say |
| Programs.ImageExactly | kernel/userland/elf_loader.cpp:173-258 | exactly the pages the headers ask for are there, and the four of the stack |
| Programs.EntryIsExecutable | kernel/userland/elf_loader.cpp:136-150 | the entry point is on an executable user page |
| Programs.StackReadsBack | kernel/userland/elf_loader.cpp:234-258 | the stack reads as zeroes, writable and not executable |
| Programs.GuardPageExactly | kernel/userland/elf_loader.cpp:234-260 | the page below the stack is unmapped exactly when it was before and no segment claims it |
| Programs.LoadThenDestroy | kernel/userland/elf_loader.cpp:155-276 | create, load, destroy returns every frame and every root's translations, except that a failed mapping leaks exactly one frame; for every accepted file and every number of free frames: loaded exactly when no page is wanted twice and there are frames for root, pages and distinct tables; out of frames exactly when they end right before some page; mapping refused exactly when some page gets a frame and is wanted again or lacks frames for its tables |
| Programs.Unload | kernel/memory/vmm.cpp:278-307 | destroying the space a file was loaded into gives back everything added since it was created, but the frame lost |
| SampleFiles.OverlapAccepted | kernel/userland/elf_loader.cpp:100-153 | one accepted file with two segments on one page |
| SampleFiles.GuardClaimed | kernel/userland/elf_loader.cpp:234-260 | one accepted file, with no page wanted twice, after whose load the guard page is mapped |
| Sequences.Pigeonhole | kernel/threading/ready_queue.hpp:22-29 | distinct thread indices are at most as many as there are threads, so the queue never fills |
| Sequences.WithoutMembers | kernel/threading/ready_queue.hpp:54-75 | deleting a thread keeps the others and their order |
| ReadyQueues.ReadyQueue.Find | kernel/threading/ready_queue.hpp:77-88 | the first position of a thread in the ring, or its length |
| ReadyQueues.ReadyQueue.Contains | kernel/threading/ready_queue.hpp:77-88 | true exactly for queued threads |
| ReadyQueues.ReadyQueue.Enqueue | kernel/threading/ready_queue.hpp:30-40 | refines append; refused exactly for null, not ready, full or queued already |
| ReadyQueues.ReadyQueue.Dequeue | kernel/threading/ready_queue.hpp:43-51 | refines taking the front |
| ReadyQueues.ReadyQueue.ShiftDown | kernel/threading/ready_queue.hpp:60-66 | the entries after a position move one place forward round the ring |
| ReadyQueues.ReadyQueue.Remove | kernel/threading/ready_queue.hpp:54-75 | refines deletion; true exactly if it was queued |
| SchedulerSafety.ReclaimSteady | kernel/threading/scheduler.cpp:396-412 | reclaiming leaves no terminated thread with a stack but the one still running on it |
| SchedulerSafety.ParkedOk | kernel/threading/scheduler.cpp:216-224 | the outgoing thread is parked, and if it is to be queued the queue takes it |
| SchedulerSafety.ScheduleInv | kernel/threading/scheduler.cpp:189-255 | a dispatch re-establishes the invariant whether the current thread runs on, gives way or was blocked |
| SchedulerSafety.YieldInv | kernel/threading/scheduler.cpp:179-187 | yielding keeps the invariant |
| SchedulerSafety.TickInv | kernel/threading/scheduler.cpp:334-358 | a timer tick keeps the invariant |
| SchedulerSafety.ExitInv | kernel/threading/scheduler.cpp:257-301 | exiting keeps the invariant: the stack in use is not freed |
| SchedulerSafety.BlockInv | kernel/threading/scheduler.cpp:303-320 | blocking any thread in use but the idle one keeps the invariant, terminated threads included |
| SchedulerSafety.BlockExactly | kernel/threading/scheduler.cpp:303-320 | blocking keeps the invariant exactly for threads in use, the idle thread only while it runs and nobody waits |
| SchedulerSafety.UnblockInv | kernel/threading/scheduler.cpp:322-332 | waking keeps the invariant, and the queue takes the thread |
| SchedulerSafety.CreateInv | kernel/threading/scheduler.cpp:120-177 | creation keeps the invariant with fresh entry and slot, and the queue takes the thread |
| SchedulerSafety.StepInv | kernel/threading/scheduler.cpp:120-358 | every step keeps the invariant |
| SchedulerSafety.InitialInv | kernel/threading/scheduler.cpp:50-118 | `init` and `start` establish the invariant |
| SchedulerSafety.AlwaysInv | kernel/threading/scheduler.cpp:120-358 | the invariant holds in every state of every run from `start` |
| SchedulerSafety.QueueHasRoom | kernel/threading/scheduler.cpp:216-224 | a queue that misses a thread has room for it |
| Fairness.ScheduleDispatches | kernel/threading/scheduler.cpp:189-255 | with a thread waiting the oldest runs and the others keep their order |
| Fairness.StepCloser | kernel/threading/scheduler.cpp:334-358 | no step but its own blocking sets a waiting thread back, and dispatches and ticks bring it forward |
| Fairness.Waits | kernel/threading/scheduler.cpp:334-358 | a thread with k ahead runs within k+1 dispatches, or once its remaining patience in ticks has passed |
| Fairness.NoStarvation | kernel/threading/scheduler.cpp:334-358 | a ready thread with k ahead of it that is not blocked runs within 2(k+1) timer ticks, whatever else happens |
| SchedulerLaws.ReclaimExactly | kernel/threading/scheduler.cpp:396-412 | reclaiming takes the stack of every terminated thread but the current one, and touches nothing else |
| SchedulerLaws.ScheduleExactly | kernel/threading/scheduler.cpp:189-255 | `schedule`, whole: a running thread goes ready to the end of the queue, the idle one is parked, the oldest waiting thread runs with a fresh slice, every other record is kept |
| SchedulerLaws.StepExactly | kernel/threading/scheduler.cpp:120-358 | every step does to every thread record, the queue, the current thread, the next number and the switch counters exactly what a flat law says |
| SchedulerLaws.StateChanges | kernel/threading/scheduler.cpp:120-358 | each change of state has one cause: running to ready exactly on giving way, to running exactly for the oldest on a switch, to blocked exactly on `block` of it, back exactly on `unblock` of it, to terminated exactly on its own `exit` |
| SchedulerLaws.GoesBehind | kernel/threading/scheduler.cpp:216-224 | a thread that yields or is preempted while others wait is ready at the end of the queue, and the first of it runs |
| SchedulerLaws.NeverLost | kernel/threading/scheduler.cpp:120-358 | over every run a runnable thread stays queued or running until it is blocked or exits |
| SchedulerLaws.RunsAgain | kernel/threading/scheduler.cpp:189-358 | a thread that gave way runs again within two ticks for each thread that waited |
| SchedulerLaws.EveryThreadRuns | kernel/threading/scheduler.cpp:189-358 | every runnable thread, running or waiting, that is not blocked and does not exit gets the processor within 128 ticks |
| SchedulerLaws.StartsAs | kernel/threading/scheduler.cpp:50-118 | thread 1 runs, idle thread 2 is parked with the first stack, nothing else is in use, the next number is 3 |
| SchedulerLaws.NumbersUnique | kernel/threading/scheduler.cpp:380-384 | until the counter wraps no two threads in use have one number |
| Fairness.CheckPasses | kernel/threading/scheduler.cpp:439-511 | the invariant implies all conditions of the runtime check |
| Fairness.RunsAreSafe | kernel/threading/scheduler.cpp:439-511 | in every run the runtime check passes, at most one terminated thread holds a stack, slots in use are active threads less one, and pages out minus pages back are four per slot |
| Schedulers.Scheduler.Start | kernel/threading/scheduler.cpp:50-118 | reaches the initial state of the runs, or four frames for the idle stack could not be had or mapped |
| Schedulers.Scheduler.ReclaimThread | kernel/threading/scheduler.cpp:398-411 | one thread's stack is freed exactly when it is terminated and not running |
| Schedulers.Scheduler.ReclaimStacks | kernel/threading/scheduler.cpp:396-412 | refines the reclaiming pass |
| Schedulers.Scheduler.ParkCurrent | kernel/threading/scheduler.cpp:216-224 | refines parking the outgoing thread |
| Schedulers.Scheduler.Schedule | kernel/threading/scheduler.cpp:189-255 | refines the dispatch step, whose effect on every thread is ScheduleExactly, from steady states to valid ones |
| Schedulers.Scheduler.Yield | kernel/threading/scheduler.cpp:179-187 | refines the yield step |
| Schedulers.Scheduler.Tick | kernel/threading/scheduler.cpp:334-358 | refines the tick step |
| Schedulers.Scheduler.Exit | kernel/threading/scheduler.cpp:257-301 | refines the exit step |
| Schedulers.Scheduler.Block | kernel/threading/scheduler.cpp:303-320 | refines the block step for every thread in use but the idle one; null means the current thread |
| Schedulers.Scheduler.Unblock | kernel/threading/scheduler.cpp:322-332 | refines the unblock step; null does nothing |
| Schedulers.Scheduler.FindTcb | kernel/threading/scheduler.cpp:386-394 | the first free pool entry after bootstrap and idle |
| Schedulers.Scheduler.Admit | kernel/threading/scheduler.cpp:142-173 | the record, queue place and statistics of a new thread, and nothing else |
| Schedulers.Scheduler.Reserve | kernel/threading/scheduler.cpp:128-141 | a blank record and a stack for it; without slot or memory only the record is blanked |
| Schedulers.Scheduler.Furnish | kernel/threading/scheduler.cpp:143-177 | with record and stack found, the create step is completed and the thread waits at the end of the queue |
| Schedulers.Scheduler.CreateThread | kernel/threading/scheduler.cpp:120-177 | refines the create step; refused only for a full pool, no slot or no memory; otherwise the thread waits at the end of the queue |
| Stacks.GuardAddresses | kernel/threading/stack_allocator.hpp:47-57 | the guard test holds exactly on the lowest page of each slot of the window |
| Stacks.GuardsUnmapped | kernel/threading/stack_allocator.cpp:64-70 | guard pages are never mapped under the kernel's root |
| Stacks.EveryRootShows | kernel/threading/stack_allocator.cpp:64-70 | in every address space the window shows exactly the stacks, and no guard page |
| Stacks.SlotByAddress | kernel/threading/stack_allocator.cpp:56-103 | slot k by its addresses: the guard page is not there, the four pages above it are consecutive frames, writable, not executable, not for user code |
| Stacks.BootedWindow | kernel/memory/vmm.cpp:56-166 | the boot tables leave the stack window empty |
| Stacks.SharesKept | kernel/memory/vmm.cpp:177-257 | mapping and unmapping keep every root on the kernel's stack tables |
| Stacks.NewRootShares | kernel/memory/vmm.cpp:266-274 | a new address space shares the kernel's stack tables |
| Stacks.RemainingShare | kernel/memory/vmm.cpp:278-307 | destroying one leaves the others sharing them |
| Stacks.BringUp | kernel/threading/stack_allocator.cpp:25-36 | after the boot tables the stack allocator starts in order, with no stack in use; exactly when the tables can be built |
| Stacks.MapRun | kernel/threading/stack_allocator.cpp:72-88 | four pages are mapped in order, or none: earlier ones are unmapped again; failure on free pages only when memory is out |
| Stacks.UnmapRun | kernel/threading/stack_allocator.cpp:81-84 | exactly the pages of the run are unmapped |
| Stacks.Claim | kernel/threading/stack_allocator.cpp:56-88 | a slot's pages backed by a run of four frames, or everything rolled back but page tables |
| Stacks.Unclaim | kernel/threading/stack_allocator.cpp:117-131 | exactly the slot's pages and frames are given up |
| Stacks.StackAllocator.FindSlot | kernel/threading/stack_allocator.cpp:41-54 | the lowest free slot |
| Stacks.StackAllocator.AllocateStack | kernel/threading/stack_allocator.cpp:38-103 | the lowest free slot mapped with frames of its own; a failure changes no stack, no window translation, no counter, and happens only without slot or memory |
| Stacks.StackAllocator.FreeStack | kernel/threading/stack_allocator.cpp:105-132 | succeeds exactly for slots in use, returning exactly their frames; otherwise nothing changes |
| FatDisk.EntryWritten | kernel/fs/fat32.cpp:223-247 | a FAT entry patched in every copy: exactly that entry changes, copies agree, reserved bits and clusters are kept |
| FatDisk.ClusterWritten | kernel/fs/fat32.cpp:302-307 | writing a cluster changes that cluster, no other and no FAT entry |
| FatDisk.ClustersApart | kernel/fs/fat32.cpp:203-206 | the sectors of distinct clusters do not overlap |
| DiskLayout.FatEntryOnDisk | kernel/fs/fat32.cpp:208-221 | entry c is the low 28 bits of the little-endian word at byte 4c of the first table |
| DiskLayout.CopiesOnDisk | kernel/fs/fat32.cpp:223-247 | the copies follow one another and hold the same bytes |
| DiskLayout.ClusterOnDisk | kernel/fs/fat32.cpp:203-206 | cluster c is at its place behind the tables, byte by byte, the first being number 2 |
| DiskLayout.RecordOnDisk | kernel/fs/fat32.hpp:53-66 | a directory entry records size at byte 28 and first cluster at bytes 26 and 20 |
| DiskLayout.TakenExactly | kernel/fs/fat32.cpp:249-276 | a cluster taken ends with 0x0FFFFFFF, its predecessor names it, nothing else changes |
| FatDisk.BlockDevice.ReadSectors | kernel/fs/fat32.cpp:295-300 | the bytes of consecutive sectors |
| FatDisk.BlockDevice.WriteSectors | kernel/fs/fat32.cpp:302-307 | exactly those sectors are overwritten |
| FatChains.ChainFits | kernel/fs/fat32.cpp:278-293 | a chain is no longer than the volume, so the hop count never cuts it short |
| FatChains.ChainUnique | kernel/fs/fat32.cpp:278-293 | a chain is determined by its first cluster |
| FatChains.AllocExtends | kernel/fs/fat32.cpp:249-276 | allocation behind a chain's end extends that chain and no other |
| FatChains.AllocStarts | kernel/fs/fat32.cpp:249-276 | allocation without predecessor starts a chain of its own |
| FatChains.FreedPartition | kernel/fs/fat32.cpp:278-293 | freeing a chain leaves a partition into the other chains |
| Fat32.Fat32Filesystem.ReadFatEntry | kernel/fs/fat32.cpp:208-221 | the masked entry of the first copy |
| Fat32.Fat32Filesystem.WriteFatEntry | kernel/fs/fat32.cpp:223-247 | exactly one entry changes, in all copies |
| Fat32.Fat32Filesystem.ReadCluster | kernel/fs/fat32.cpp:295-300 | the bytes of the cluster |
| Fat32.Fat32Filesystem.WriteCluster | kernel/fs/fat32.cpp:302-307 | exactly one cluster changes |
| Fat32.Fat32Filesystem.AllocCluster | kernel/fs/fat32.cpp:249-276 | the lowest free cluster, ended, linked behind its predecessor and cleared; 0 exactly when none is free, with nothing changed |
| Fat32.Fat32Filesystem.FreeClusterChain | kernel/fs/fat32.cpp:278-293 | exactly the clusters of a well-formed chain become free; the walk ends whatever the table holds |
| FileContent.ClusterSlice | kernel/fs/fat32.cpp:383-400 | cluster k of the chain is the k-th stretch of the content |
| FileContent.PartialWrite | kernel/fs/fat32.cpp:449-464 | writing part of a cluster is writing that part of the content |
| Fat32Files.NextForWrite | kernel/fs/fat32.cpp:433-442 | the next cluster, linked or allocated and linked; none only on a full volume |
| Fat32Files.SeekForWrite | kernel/fs/fat32.cpp:422-443 | the cluster of the offset, extending the chain where it ends early; the hop count does not interfere |
| Fat32Files.WriteChunk | kernel/fs/fat32.cpp:450-460 | read-modify-write changes exactly the bytes of the chunk |
| Fat32Files.WriteChunks | kernel/fs/fat32.cpp:445-474 | the bytes written are a prefix of the data laid at the offset; short only on a full volume |
| Fat32Files.ClustersConserved | kernel/fs/fat32.cpp:249-276 | what a chain gained, the free clusters lost |
| Fat32Files.FullExactly | kernel/fs/fat32.cpp:249-276 | the search for a free cluster fails exactly when there is none |
| Fat32Nodes.EntryRecorded | kernel/fs/fat32.cpp:334-354 | the directory entry records size and first cluster, and no other byte changes |
| Fat32Nodes.SeekForRead | kernel/fs/fat32.cpp:369-381 | the cluster of the offset |
| Fat32Nodes.ReadChunks | kernel/fs/fat32.cpp:383-400 | the bytes of the content from the offset on |
| Fat32Nodes.Fat32VNode.Read | kernel/fs/fat32.cpp:356-404 | exactly the bytes of the file in the window asked for, min(count, size - offset) of them, unless the window wraps round 2^64: then what follows in the chain |
| Fat32Nodes.Fat32VNode.UpdateDirEntry | kernel/fs/fat32.cpp:334-354 | the in-memory fields and the entry on disk agree, and nothing else changes |
| Fat32Nodes.Fat32VNode.EnsureFirst | kernel/fs/fat32.cpp:414-420 | a cleared first cluster for a file without one, or the volume is full |
| Fat32Nodes.Fat32VNode.WriteAndRecord | kernel/fs/fat32.cpp:445-483 | data, size and directory entry after the write loop |
| Fat32Nodes.Fat32VNode.WriteFile | kernel/fs/fat32.cpp:406-484 | as Write, for a file and data |
| Fat32Nodes.Fat32VNode.Write | kernel/fs/fat32.cpp:406-484 | exactly the first n bytes are laid over the file where the offset lands, n and the clusters added exactly as free clusters allow; the size follows in 32 bits; the directory entry records size and first cluster after every success, and keeps doing so unless the file had no cluster and the seek took the last one; the file stays well formed exactly when its chain holds the recorded size, always below 4 GiB |
| Fat32Nodes.WriteAccepted | kernel/fs/fat32.cpp:422-474 | how many bytes a write accepts and how many clusters its chain then has, from the clusters free before |
| Fat32Nodes.RefusedInSeek | kernel/fs/fat32.cpp:422-443 | a write is refused in the seek exactly when all free clusters do not reach the offset; what that does to the directory entry |
| Fat32Nodes.PatchesRecord | kernel/fs/fat32.cpp:334-354 | the updated directory entry records size and first cluster |
| Fat32Nodes.InPlaceExactly | kernel/fs/fat32.cpp:422-423 | data lands at the offset and the size becomes max(size, offset + n) exactly when the write ends below 4 GiB |
| Fat32Nodes.Fat32VNode.Truncate | kernel/fs/fat32.cpp:486-494 | zero frees the chain; any other size is recorded in 32 bits without touching the chain, and the file stays well formed exactly when the chain holds that much; the directory entry records it |
| Fat32Nodes.Fat32VNode.TruncateToZero | kernel/fs/fat32.cpp:486-494 | the chain's clusters become free and the entry records an empty file |
| FileTheorems.ByteAfterWrite | kernel/fs/fat32.cpp:406-484 | each byte of the content: the data written, else the old byte, else zero |
| FileTheorems.WriteReadsBack | kernel/fs/fat32.cpp:356-484 | the content where data was written is that data |
| FileTheorems.FileAfterWrite | kernel/fs/fat32.cpp:406-484 | the file after write and directory update is the old bytes with the data laid over them, the gap filled from the chain; clusters cleared beyond the end stay so |
| FileTheorems.OverlayZero | kernel/fs/fat32.cpp:406-484 | over cleared clusters that is an array write with zeroes in the gap |
| FileTheorems.GapIsZeroExactly | kernel/fs/fat32.cpp:406-484 | the gap before a write past the end reads as zeroes exactly when the chain held zeroes there before |
| FileTheorems.FailedWriteKeepsFile | kernel/fs/fat32.cpp:434-441 | a write that fails changes no byte of the file, and what it adds is zero |
| FileTheorems.PartitionAfterWrite | kernel/fs/fat32.cpp:406-484 | a write keeps the FAT a partition: its chain grew, the others are what they were |
| FileTheorems.PartitionAfterFirstWrite | kernel/fs/fat32.cpp:414-420 | the first write to an empty file adds a chain of its own |
| FileTheorems.WriteThenRead | kernel/fs/fat32.cpp:356-484 | reading back returns exactly the bytes the write accepted |
| FileRuns.OtherFileStays | kernel/fs/fat32.cpp:406-494 | an operation on one file leaves another in place, with its bytes, and apart |
| FileRuns.OthersKept | kernel/fs/fat32.cpp:406-494 | an operation on one file leaves another its chain, bytes, place among the chains and whatever its directory entry records |
| FileRuns.ChainsAfter | kernel/fs/fat32.cpp:406-484 | after a write the FAT is a partition with the grown, new or unchanged chain in it |
| FileRuns.FreedCount | kernel/fs/fat32.cpp:278-293 | clearing gives back as many clusters as the chain had |
| FileRuns.Act | kernel/fs/fat32.cpp:356-494 | one operation on one file: result, bytes, slack, clusters and free clusters exactly, and what becomes of its directory entry, kept or lost |
| FileRuns.EffectDetermined | kernel/fs/fat32.cpp:356-494 | nothing about the file, its slack or the result is left open by that |
| FileRuns.RefusedRecord | kernel/fs/fat32.cpp:414-441 | what a refused write does to the directory entry, from any state of it |
| FileRuns.EffectIsNext | kernel/fs/fat32.cpp:356-494 | over cleared clusters an operation does what it does on a byte array |
| FileRuns.Perform | kernel/fs/fat32.cpp:356-494 | one read, write or clearing among any number of files: result, bytes, slack and directory entry of the file, the free clusters, every other file's bytes and directory entry, and the partition of the FAT into chains |
| FileRuns.PerformAll | kernel/fs/fat32.cpp:356-494 | any run of reads, writes and clearings keeps files in order, apart and on chains of a partition, and files not named keep their bytes; whatever the clusters hold, files, slack, directory entries and results go through one run of the disk; where chains are cleared beyond the size, results and files are those of the run over byte arrays |
| FileRuns.TraceDetermined | kernel/fs/fat32.cpp:356-494 | a run of the disk is determined by where it starts |
| FileRuns.EntriesExactly | kernel/fs/fat32.cpp:406-494 | over a run a directory entry matches its file throughout exactly when no operation on that file is a losing one |
| FileRuns.Serve | kernel/fs/fat32.cpp:356-494 | one operation is one step of the disk, and of the byte arrays where it holds them |
| SampleVolumes.FirstClusterLost | kernel/fs/fat32.cpp:414-441 | one volume on which a failed write leaves the directory entry without the first cluster |
| SampleVolumes.GapShowsOldBytes | kernel/fs/fat32.cpp:445-474 | one volume on which the gap before a write shows old bytes |
| SampleVolumes.WriteWraps | kernel/fs/fat32.cpp:422-480 | one offset that lands at the start of the file, and one end that is recorded as size zero |
| SampleVolumes.ReadPastTheEnd | kernel/fs/fat32.cpp:356-366 | one read that returns bytes past the end of the file |
| SampleVolumes.TruncateOutgrows | kernel/fs/fat32.cpp:486-494 | one truncation after which the chain does not hold the recorded size |
| Virtqueues.Virtqueue.AllocDescriptor | kernel/drivers/virtio/virtio_queue.cpp:85-99 | the head of the free list, cleared; -1 exactly when none is free |
| Virtqueues.Virtqueue.FreeDescriptorChain | kernel/drivers/virtio/virtio_queue.cpp:101-119 | exactly the request's descriptors go back in front of the free list |
| Virtqueues.Virtqueue.SetDescriptor | kernel/drivers/virtio/virtio_queue.cpp:121-127 | exactly one descriptor in use changes |
| Virtqueues.Virtqueue.Submit | kernel/drivers/virtio/virtio_queue.cpp:129-141 | the head is put in the slot of the wrapping available index, which advances |
| Virtqueues.Virtqueue.WaitForCompletion | kernel/drivers/virtio/virtio_queue.cpp:143-166 | true exactly when some poll shows a new entry for this request, with stray completions consumed on the way |
| VirtioBlocks.VirtioBlock.TakeThree | kernel/drivers/virtio/virtio_block.cpp:176-185 | three distinct descriptors, or none taken |
| VirtioBlocks.VirtioBlock.Complete | kernel/drivers/virtio/virtio_block.cpp:191-203 | the status from completion and status byte, 0 success, 2 unsupported, anything else an error, exactly; every descriptor of the request back on the free list |
| VirtioBlocks.VirtioBlock.Exchange | kernel/drivers/virtio/virtio_block.cpp:171-203 | one request against any device: the status exactly from the polls and the value of the status byte, all descriptors free afterwards; an honest device, whenever it answers, carries out exactly the transfer asked for |
| VirtioBlocks.VirtioBlock.InBounds | kernel/storage/block_device.cpp:5-17 | accepts exactly ranges on the medium with a buffer, overflow included |
| VirtioBlocks.VirtioBlock.ReadSectors | kernel/drivers/virtio/virtio_block.cpp:148-213 | for every device the free list is complete afterwards and success means all sectors arrived; honest answers to every request, at whatever poll, make the 64-sector chunks one straight copy; honest answers so far make what arrived a prefix of the sectors asked for, whatever fails later |
| VirtioBlocks.VirtioBlock.WriteChunks | kernel/drivers/virtio/virtio_block.cpp:231-280 | the chunk loop writes exactly the sectors asked for; if a chunk fails after honest ones, the medium holds exactly those before it |
| VirtioBlocks.VirtioBlock.WriteSectors | kernel/drivers/virtio/virtio_block.cpp:215-281 | refusals touch nothing; with honest answers exactly the given sectors are on the medium; if a chunk fails after honest ones, exactly those before it |
| VirtioBlocks.VirtioBlock.FlushCache | kernel/drivers/virtio/virtio_block.cpp:283-322 | an honest flush leaves the medium; the status exactly from completion and status byte; all descriptors free afterwards |
| VirtioBlocks.SetUpServes | kernel/drivers/virtio/virtio_block.cpp:187-189 | the three descriptors as set up are a request an honest device carries out |
| InputQueues.Distance | kernel/drivers/ps2/input_queue.hpp:33-40 | the difference of two indices at most a capacity apart survives 64-bit wrap-around |
| InputQueues.SlotOfWrapped | kernel/drivers/ps2/input_queue.hpp:42-46 | masking a wrapped index selects the slot of the unwrapped one |
| InputQueues.StepInv | kernel/drivers/ps2/input_queue.hpp:32-71 | every single load or store of producer or consumer keeps the invariant |
| InputQueues.AlwaysInv | kernel/drivers/ps2/input_queue.hpp:32-71 | the invariant holds under every interleaving from the empty queue |
| InputQueues.Linearizes | kernel/drivers/ps2/input_queue.hpp:32-71 | popped events are a prefix of accepted ones in order, no unread slot is overwritten, occupancy stays within capacity, accepted plus dropped is attempted |
| InputQueues.DropsExactly | kernel/drivers/ps2/input_queue.hpp:32-50 | under every interleaving a push drops its event exactly when the ring held capacity events as the tail was read |
| InputQueues.PublishesItsEvent | kernel/drivers/ps2/input_queue.hpp:32-50 | under every interleaving what a push publishes is the event it was given |
| InputQueues.EmptyExactly | kernel/drivers/ps2/input_queue.hpp:53-71 | under every interleaving a pop finds nothing exactly when the ring was empty as the head was read |
| Kalloc.FindSlabBin | kernel/memory/kalloc.cpp:42-49 | the smallest bin that fits, or none when none does |
| Kalloc.BinsDouble | kernel/memory/kalloc.cpp:36-37 | bins double from 64 bytes to 2048 and divide a page |
| Kalloc.TakesLittleMore | kernel/memory/kalloc.cpp:75-123 | a request gets room for itself and 16 bytes in a block less than twice that, or in whole pages with less than one to spare |
| Kalloc.KernelHeap.Replenish | kernel/memory/kalloc.cpp:85-97 | a fresh page becomes the blocks of the bin, last one first, in front of its list; every other block and list is what it was |
| Kalloc.KernelHeap.TakeBlock | kernel/memory/kalloc.cpp:99-108 | the front block of the bin becomes live |
| Kalloc.KernelHeap.FromSlab | kernel/memory/kalloc.cpp:83-109 | the front block of the bin, refilled if empty; null exactly when empty and without a page |
| Kalloc.KernelHeap.FromPages | kernel/memory/kalloc.cpp:111-122 | a block of whole pages; null exactly without them |
| Kalloc.KernelHeap.Kmalloc | kernel/memory/kalloc.cpp:75-123 | exactly one new live block for any 64-bit size, with room for it exactly below 2^64 - 16; free lists and blocks exactly as after taking the front block, after a refill, or after adding the pages; null exactly for size 0 or when pages are needed and not given |
| Kalloc.WrappedRequest | kernel/memory/kalloc.cpp:80-81 | a request of 2^64 - 16 bytes is answered from the 64-byte bin |
| Kalloc.RefillHandedOut | kernel/memory/kalloc.cpp:85-100 | after a refill the last block of the page is handed out |
| Kalloc.KernelHeap.Kfree | kernel/memory/kalloc.cpp:125-156 | a live block goes back to its bin or its pages away; a slab block already free and null change nothing |
| Kalloc.FreeBlockRefused | kernel/memory/kalloc.cpp:130-138 | the link in a free block never looks like the magic number and its payload is never page aligned |
| Kalloc.BlockCell | kernel/memory/kalloc.cpp:130-138 | the magic number is present exactly in live blocks |
| Kalloc.PayloadsApart | kernel/memory/kalloc.cpp:75-123 | live payloads overlap neither each other nor any other block, for requests that did not wrap |
| Kalloc.TakenOk | kernel/memory/kalloc.cpp:99-108 | handing out keeps the heap invariant |
| Kalloc.PutOk | kernel/memory/kalloc.cpp:143-149 | putting a block in front of a bin keeps it |
| Kalloc.DirectOk | kernel/memory/kalloc.cpp:111-122 | a direct allocation keeps it |
| Kalloc.DroppedOk | kernel/memory/kalloc.cpp:153-155 | giving whole pages back keeps it |
| KernelMemory.RunGranted | kernel/memory/kalloc.cpp:53-65 | frames the page allocator hands over lie, through the direct map, outside every block |
| KernelMemory.KernelMemory.Kmalloc | kernel/memory/kalloc.cpp:53-123 | over the frame allocator: null exactly for size 0 or when pages are needed and there are none; exactly the frames needed are taken, and no block touches a free frame |
| KernelMemory.KernelMemory.KmallocPages | kernel/memory/kalloc.cpp:53-123 | the same for requests that need pages |
| KernelMemory.KernelMemory.Kfree | kernel/memory/kalloc.cpp:67-156 | a block of whole pages returns exactly its frames; any other pointer returns none |
| KernelMemory.HousedLess | kernel/memory/kalloc.cpp:153-155 | after a block's frames are free no other block touches them |
| Kernel.TakenSafe | kernel/memory/vmm.cpp:190-257 | frames taken for tables and pages were free, so the heap's blocks are untouched |
| Kernel.ReturnedSafe | kernel/memory/vmm.cpp:278-307 | frames an address space returns are none a block owns |
| Kernel.AllocSafe | kernel/memory/kalloc.cpp:53-65 | pages taken for the heap hold no table, so every translation stays |
| Kernel.FreeSafe | kernel/memory/kalloc.cpp:67-73 | the pages of a block that go back hold no table |
| Kernel.MapBeside | kernel/memory/vmm.cpp:177-257 | mapping a page, or failing to, keeps the heap |
| Kernel.CreateBeside | kernel/memory/vmm.cpp:259-276 | creating an address space keeps the heap, and the new one shows the kernel stacks |
| Kernel.DestroyBeside | kernel/memory/vmm.cpp:278-307 | destroying one keeps the heap and the stacks of the others |
| Kernel.KmallocBeside | kernel/memory/kalloc.cpp:75-123 | `kmalloc` keeps the address-space manager's invariant and every translation |
| Kernel.KfreeBeside | kernel/memory/kalloc.cpp:125-156 | so does `kfree` |
| Checksum.CalculateChecksum | kernel/net/net_types.hpp:213-231 | the loop with its 32-bit accumulator computes the complement of the one's complement sum, in which every byte counts as ByteCounts says |
| Checksum.FoldStep | kernel/net/net_types.hpp:226-228 | folding a carry keeps the sum modulo 65535 and makes it smaller |
| Checksum.SumBound | kernel/net/net_types.hpp:213-231 | the sum of a buffer is bounded, so up to 64 KiB cannot overflow the accumulator |
| Checksum.ByteCounts | kernel/net/net_types.hpp:213-224 | changing a byte moves the sum by the change at an even offset and by 256 times it at an odd one, the last byte of an odd buffer included |
| Checksum.OddIsPadded | kernel/net/net_types.hpp:222-224 | a buffer has the checksum of the buffer with a zero byte behind it |
| Checksum.ChecksumCompletes | kernel/net/net_types.hpp:226-230 | sum and checksum together are a multiple of 65535; the checksum is 65535 exactly over nothing but zeroes |
| Checksum.OneByteDetected | kernel/net/net_types.hpp:213-231 | any one byte changed makes a buffer of up to 64 KiB that verified fail |
| Checksum.AcceptedExactly | kernel/net/net_types.hpp:213-231 | a buffer verifies exactly when its sum is a positive multiple of 65535 |
| Checksum.StoredChecksumVerifies | kernel/net/net_interface.cpp:182-186 | storing the checksum in its zeroed even-offset field makes the recomputed checksum zero, with any pseudo-header sum |
| Checksum.SegmentVerifies | kernel/net/tcp.cpp:44-59 | a TCP segment checksummed over its pseudo-header verifies at the receiver |
| Checksum.PseudoHeaderInFront | kernel/net/tcp.cpp:44-59 | the TCP checksum is that of the 12-byte pseudo-header followed by the segment |

## Left out

Hardware and surroundings

- Port I/O, model-specific registers, TLB invalidation, segment tables and the context switch itself: CR3 is a field,
  the switch is `current := next`, no-execute support is a parameter of `Vmm.VirtualMemoryManager.Init`.
- Logging, self tests, dump functions, console, framebuffer, PCI and PS/2 probing, kernel start-up: output and hardware
  conversations.
- Spinlocks outside the key queue: the kernel declares itself single-CPU, so guarded sections are atomic.
- TCP, UDP, DHCP, ARP and ICMP beyond the checksum: they fill in and pick apart packet headers and keep a table of
  connections or addresses. GPT reads a table of partitions, a partition shifts sector numbers by its start, path
  normalisation resolves `.`, `..` and repeated slashes, and 8.3 names are padded and upper-cased.

Memory

- `largest_contiguous_free_pages` counts the longest free run, `is_frame_allocated` reads one bit, and `walk_live_cr3`
  looks one address up in the tables the processor uses: they change nothing.
- Pmm.PhysicalMemoryManager.Init: for boot maps of at most 64 entries (the loader's own limit) whose usable entries
  end at or below 2^52 and whose reserved ones do not wrap.
- Pmm.PhysicalMemoryManager.FillBitmap, MarkBitmap, ApplyOverrides and ReserveFirmware: for the same boot maps.
- Pmm.PhysicalMemoryManager.AllocPage: once the boot tables are live, zeroing a frame without a direct-map address
  faults; the model zeroes it. No such frame is handed out on the machines of `Vmm.SmallRam`.
- Bitmap words are 64 booleans with a lowest-clear-bit search; the bitmap is not stored in modelled memory.
- Vmm.VirtualMemoryManager.MapPageInTable: like every operation of the manager, for machines on which no usable frame
  lies where `BootTables.DirectMapExactly` finds no direct-map address, between 512 MiB and 1 GiB or from 2 GiB on; a
  write to a new table there would fault, and faults are not modelled.
- Vmm.VirtualMemoryManager.CreateUserAddressSpace, MapChecked and Init: for the same machines.
- Vmm.VirtualMemoryManager.FreeBelow: the four nested teardown loops are one recursive method, one level per call.
- Vmm.VirtualMemoryManager.Init: the five frames are taken first and filled afterwards, and on refusal the contents of
  the returned frames are not described.
- AddressSpaces.MapFresh: allocate-map-or-give-back is the calling pattern of the kernel's users, not one function of
  it; AddressSpaces.LifeCycle restores bitmap and counters but says nothing of the search hint.
- Programs.LoadThenDestroy: the outcome is stated for a loader left alone; a forced allocation failure, the kernel's
  test switch, can stop it anywhere.
- `load_from_vfs`: reads a file and calls the loader.

Threads

- Names, priorities, register contexts and per-thread CR3 are not modelled; thread ids may repeat after wrap-around.
- Schedulers.Scheduler.Block: not for the idle thread, nor for a record not in use; what the step does to them is
  `SchedulerSafety.BlockExactly`.
- The thread pool is a sequence field reassigned by the methods, so aliasing of thread records is not captured.

FAT32

- Mounting, directory search, creation, unlinking and long names; several vnodes for one file.
- Fat32.Fat32Filesystem.WriteFatEntry: device I/O and buffer allocation succeed, so the error returns of the driver are
  not described; the same holds of every file operation.
- Fat32.Fat32Filesystem.ReadFatEntry: likewise, the answer to a failed read is not described.
- FileRuns.PerformAll: truncation to a size other than zero is described by `Fat32Nodes.Fat32VNode.Truncate` and not
  part of these runs, since it can break the file.
- FatChains.FreedPartition: volumes with clusters marked bad are not partitions in this sense.
- FileTheorems.WriteThenRead, FileRuns.Perform and FileRuns.PerformAll compose operations of the driver; no such
  functions exist in it. They are for writes that end below 4 GiB, the condition of `Fat32Nodes.InPlaceExactly`, and
  reads whose window does not wrap.

Devices and heap

- VirtioBlocks.VirtioBlock.Exchange: buffer addresses are symbolic, the device answers each request from a script of
  what the used ring shows; a device that writes to a bounce buffer after a timeout is not described.
- InputQueues.Linearizes: the dropped counter does not wrap.
- Kalloc.KernelHeap.Kmalloc: the pages come as a parameter; `KernelMemory.KernelMemory.Kmalloc` draws them from the
  frame allocator, before the call instead of inside it.
- Kalloc.KernelHeap.Kfree: of pointers `kmalloc` returned and whose block is still the heap's; the legacy page-aligned
  path and freeing a direct allocation twice are not modelled.
- KernelMemory.KernelMemory.Kfree: of the same pointers.
