/** The kernel heap and the address-space manager draw from one frame allocator: what each does leaves the other in
    order. */
module Kernel {
  import opened Machine
  import opened PagingTypes
  import opened Ram
  import opened PageTables
  import opened Ownership
  import opened AddressSpaces
  import opened Kalloc
  import opened KernelMemory
  import P = Pmm
  import V = Vmm
  import S = Stacks

  /** No block touches a frame of the forest. */
  ghost predicate Clear(blocks: Blocks, forest: Forest)
  {
    forall a, f {:trigger blocks[a], f in forest} :: a in blocks && f in forest ==>
      Apart(a, blocks[a], PageOf(f), PAGE_SIZE)
  }

  /** What the heap needs of the frames, in a state of the address-space manager. */
  ghost predicate HeapSafe(blocks: Blocks, live: map<nat, Live>, usable: seq<bool>, v: View)
  {
    Housed(blocks, v.used) && Owned(live, v.used, usable) && Clear(blocks, v.forest)
  }

  ghost predicate Coexist(km: KernelMemory, vmm: V.VirtualMemoryManager)
    reads km.heap, km.pmm, km.pmm.bitmap, km.pmm.tracker, vmm, vmm.pmm, vmm.pmm.bitmap, vmm.pmm.ram, vmm.pmm.tracker
  {
    km.Valid() && vmm.Valid() && km.pmm == vmm.pmm && Clear(km.heap.blocks, vmm.forest)
  }

  // ---------------------------------------------------------------- the manager beside the heap

  /** Frames taken for tables and data were free, so no block touches them. */
  lemma TakenSafe(blocks: Blocks, live: map<nat, Live>, usable: seq<bool>, a: View, b: View)
    requires HeapSafe(blocks, live, usable, a) && TakenForTables(a, b)
    ensures HeapSafe(blocks, live, usable, b)
  {
    forall x, f | x in blocks && f in b.forest ensures Apart(x, blocks[x], PageOf(f), PAGE_SIZE) {
      if f !in a.forest { assert !a.used[f]; }
    }
    forall x, f | x in blocks && 0 <= f < |b.used| && !b.used[f] ensures Apart(x, blocks[x], PageOf(f), PAGE_SIZE) {
      assert !a.used[f];
    }
    forall x | x in live && live[x].bin >= NUM_SLABS ensures OwnsRun(x, live[x].pages, b.used, usable) {
      assert OwnsRun(x, live[x].pages, a.used, usable);
    }
  }

  /** Frames of the forest that return are none a block owns. */
  lemma ReturnedSafe(blocks: Blocks, live: map<nat, Live>, usable: seq<bool>, a: View, gone: set<nat>)
    requires HeapSafe(blocks, live, usable, a) && gone <= a.forest.Keys
    requires forall x :: x in live && live[x].bin >= NUM_SLABS ==> x in blocks && blocks[x] == live[x].pages * PAGE_SIZE
    ensures HeapSafe(blocks, live, usable, View(a.mem, Without(a.forest, gone), Cleared(a.used, gone)))
  {
    var used := Cleared(a.used, gone);
    forall x, f | x in blocks && 0 <= f < |used| && !used[f] ensures Apart(x, blocks[x], PageOf(f), PAGE_SIZE) {
      if f !in gone { assert !a.used[f]; }
    }
    forall x, f | x in blocks && f in Without(a.forest, gone) ensures Apart(x, blocks[x], PageOf(f), PAGE_SIZE) {
      assert f in a.forest;
    }
    forall x | x in live && live[x].bin >= NUM_SLABS ensures OwnsRun(x, live[x].pages, used, usable) {
      assert OwnsRun(x, live[x].pages, a.used, usable);
      var s := (x - B.DIRECT_MAP_BASE) / PAGE_SIZE;
      forall f | s <= f < s + live[x].pages ensures f !in gone {
        InBlock(s, live[x].pages, f);
        OffForest(blocks, a.forest, x, f);
      }
    }
  }

  lemma OffForest(blocks: Blocks, forest: Forest, a: nat, f: nat)
    requires Clear(blocks, forest) && a in blocks
    ensures f in forest ==> Apart(a, blocks[a], PageOf(f), PAGE_SIZE)
  {
  }

  /** Page `f` of a run is part of it. */
  lemma InBlock(s: nat, n: nat, f: nat)
    requires s <= f < s + n
    ensures !Apart(PageOf(s), n * PAGE_SIZE, PageOf(f), PAGE_SIZE)
  {
  }

  /** Mapping a page, or failing to, keeps the heap. */
  method MapBeside(km: KernelMemory, vmm: V.VirtualMemoryManager, pml4: u64, request: MapRequest)
    returns (status: V.VmmStatus)
    requires Coexist(km, vmm) && PageAligned(pml4) && pml4 != 0 && pml4 != vmm.root && request.va < V.LOWER_HALF
    requires IsTable(vmm.forest, pml4 / PAGE_SIZE, 4) && LeavesOwned(vmm.ram.frames, vmm.forest, pml4 / PAGE_SIZE)
    modifies vmm`forest, vmm.ram, vmm.pmm.bitmap, vmm.pmm`used, vmm.pmm`freeFrames, vmm.pmm`allocatedFrames,
             vmm.pmm`lastSearchFrame
    ensures Coexist(km, vmm) && LeavesOwned(vmm.ram.frames, vmm.forest, pml4 / PAGE_SIZE)
  {
    hide HeapOk, P.PhysicalMemoryManager.Valid, Sound, LeavesOwned, Held, OwnersElsewhere, OnePage, SameWalks, Walk,
         V.PathOf, Housed, Owned, Clear, TakenForTables;
    ghost var a := vmm.Now();
    status := MapFresh(vmm, pml4, request);
    TakenSafe(km.heap.blocks, km.heap.live, vmm.pmm.usable, a, vmm.Now());
  }

  /** Every root shows the kernel's stacks. */
  ghost predicate Sharing(vmm: V.VirtualMemoryManager)
    reads vmm, vmm.ram
  {
    S.AllShare(vmm.ram.frames, vmm.forest, vmm.root / PAGE_SIZE)
  }

  /** So does creating an address space, which then shows the stacks as all others do, */
  method CreateBeside(km: KernelMemory, vmm: V.VirtualMemoryManager) returns (pml4: u64)
    requires Coexist(km, vmm)
    modifies vmm`forest, vmm.ram, vmm.pmm.bitmap, vmm.pmm`used, vmm.pmm`freeFrames, vmm.pmm`allocatedFrames,
             vmm.pmm`lastSearchFrame
    ensures Coexist(km, vmm) && (old(Sharing(vmm)) ==> Sharing(vmm))
  {
    hide HeapOk, P.PhysicalMemoryManager.Valid, Sound, LeavesOwned, Held, OwnersElsewhere, FreshSpace, Housed, Owned,
         Clear, TakenForTables, GrewOnlyUnder, WithRoot, UserRootEntries, S.AllShare;
    ghost var a := vmm.Now();
    pml4 := vmm.CreateUserAddressSpace();
    if pml4 != 0 {
      RootTaken(a, vmm.ram.frames, pml4 / PAGE_SIZE);
      TakenSafe(km.heap.blocks, km.heap.live, vmm.pmm.usable, a, vmm.Now());
      TablesThere(a.mem, a.forest);
      if old(Sharing(vmm)) { S.NewRootShares(a.mem, vmm.ram.frames, a.forest, vmm.root / PAGE_SIZE, pml4 / PAGE_SIZE); }
    }
  }

  lemma TablesThere(mem: Memory, forest: Forest)
    requires Sound(mem, forest)
    ensures forall t :: t in forest && forest[t].level >= 1 ==> t in mem
  {
  }

  lemma RootTaken(a: View, mem': Memory, r: nat)
    requires r < |a.used| && !a.used[r] && r !in a.forest
    ensures TakenForTables(a, View(mem', WithRoot(a.forest, r), a.used[r := true]))
  {
    GrewRoot(a, mem', r);
  }

  /** and destroying one. */
  method DestroyBeside(km: KernelMemory, vmm: V.VirtualMemoryManager, pml4: u64)
    requires Coexist(km, vmm) && pml4 != 0 && pml4 != vmm.root && PageAligned(pml4)
    requires IsTable(vmm.forest, pml4 / PAGE_SIZE, 4) && LeavesOwned(vmm.ram.frames, vmm.forest, pml4 / PAGE_SIZE)
    modifies vmm`forest, vmm.ram, vmm.pmm.bitmap, vmm.pmm`used, vmm.pmm`freeFrames, vmm.pmm`allocatedFrames,
             vmm.pmm`lastSearchFrame
    ensures Coexist(km, vmm) && (old(Sharing(vmm)) ==> Sharing(vmm))
  {
    hide S.AllShare, OnlyWithin, HeapOk, P.PhysicalMemoryManager.Valid, LeavesOwned, Held, OwnersElsewhere, Housed,
         Owned, Clear, Below, Cleared, Without, SameElsewhere, Sound;
    ghost var a, r := vmm.Now(), pml4 / PAGE_SIZE;
    V.BelowInForest(a.mem, a.forest, r);
    LiveSizes(km.heap.mem, km.heap.blocks, km.heap.heads, km.heap.free, km.heap.live);
    vmm.DestroyUserAddressSpace(pml4);
    ReturnedSafe(km.heap.blocks, km.heap.live, vmm.pmm.usable, a, Below(a.forest, r) + {r});
    if old(Sharing(vmm)) {
      RootStays(a.mem, a.forest, vmm.root / PAGE_SIZE, r);
      S.RemainingShare(a.mem, vmm.ram.frames, a.forest, Below(a.forest, r) + {r}, vmm.root / PAGE_SIZE);
    }
  }

  lemma RootStays(mem: Memory, forest: Forest, k: nat, r: nat)
    requires Sound(mem, forest) && IsTable(forest, k, 4) && k != r
    ensures k !in Below(forest, r) + {r}
  {
  }

  // ---------------------------------------------------------------- the heap beside the manager

  /** What the manager needs of the frames. */
  ghost predicate ManagerSafe(v: View, usable: seq<bool>)
  {
    Sound(v.mem, v.forest) && Held(v.used, usable, v.forest) && P.InRam(v.mem, |v.used|)
  }

  /** A run of free frames holds no table and no recorded page. */
  lemma RunOutsideForest(v: View, usable: seq<bool>, s: nat, n: nat)
    requires ManagerSafe(v, usable) && P.FreeRun(v.used, s, n)
    ensures forall f :: s <= f < s + n ==> f !in v.forest && f in v.mem
  {
    hide Sound;
  }

  lemma AllocSafe(v: View, mem': Memory, usable: seq<bool>, s: nat, n: nat)
    requires ManagerSafe(v, usable) && P.FreeRun(v.used, s, n) && mem' in {v.mem, P.Zeroed(v.mem, s, n)}
    ensures ManagerSafe(View(mem', v.forest, P.Marked(v.used, s, n, true)), usable) && SameWalks(v.mem, mem', v.forest)
  {
    hide Sound, SameWalks, P.Marked;
    RunOutsideForest(v, usable, s, n);
    S.ZeroedHarmless(v.mem, v.forest, s, n);
    SameWalksSelf(v.mem, v.forest);
  }

  /** New blocks lie in frames that were free, so outside the forest. */
  lemma GrownClear(blocks: Blocks, blocks': Blocks, forest: Forest, s: nat, n: nat)
    requires Clear(blocks, forest) && AddedIn(blocks, blocks', PageOf(s), n * PAGE_SIZE)
             && forall f :: s <= f < s + n ==> f !in forest
    ensures Clear(blocks', forest)
  {
    forall a, f | a in blocks' && f in forest ensures Apart(a, blocks'[a], PageOf(f), PAGE_SIZE) {
      if a in blocks && blocks'[a] == blocks[a] { OffForest(blocks, forest, a, f); }
    }
  }

  /** `kmalloc` keeps the manager's invariant and every translation. */
  method KmallocBeside(km: KernelMemory, vmm: V.VirtualMemoryManager, size: nat) returns (ptr: nat)
    requires Coexist(km, vmm) && size < TWO64
    modifies km.heap, vmm.ram, vmm.pmm.bitmap, vmm.pmm`used, vmm.pmm`freeFrames, vmm.pmm`allocatedFrames,
             vmm.pmm`lastSearchFrame
    ensures Coexist(km, vmm) && SameWalks(old(vmm.ram.frames), vmm.ram.frames, vmm.forest)
  {
    hide HeapOk, P.PhysicalMemoryManager.Valid, Sound, Held, OwnersElsewhere, Housed, Owned, Clear, HandedOut,
         NeedsPages, P.Marked, SameWalks, P.Zeroed, PagesFor, AddedIn, P.InRam, ManagerSafe;
    ghost var v, blocks, free := vmm.Now(), km.heap.blocks, km.heap.free;
    SameWalksSelf(v.mem, v.forest);
    ManagerIsSafe(vmm);
    ptr := km.Kmalloc(size);
    if ptr != 0 && NeedsPages(free, size) {
      ghost var s: nat :| P.FreeRun(v.used, s, PagesFor(size))
                          && vmm.pmm.used == P.Marked(v.used, s, PagesFor(size), true)
                       && vmm.ram.frames in {v.mem, P.Zeroed(v.mem, s, PagesFor(size))}
                       && HandedOut(free, km.heap.free, blocks, km.heap.blocks, size, PageOf(s), ptr - HEADER);
      HandedInside(free, km.heap.free, blocks, km.heap.blocks, size, PageOf(s), ptr - HEADER);
      RunOutsideForest(v, vmm.pmm.usable, s, PagesFor(size));
      AllocSafe(v, vmm.ram.frames, vmm.pmm.usable, s, PagesFor(size));
      GrownClear(blocks, km.heap.blocks, v.forest, s, PagesFor(size));
      SafeParts(vmm.Now(), vmm.pmm.usable);
    }
  }

  lemma ManagerIsSafe(vmm: V.VirtualMemoryManager)
    requires vmm.Valid()
    ensures ManagerSafe(vmm.Now(), vmm.pmm.usable)
  {
    hide Sound, P.PhysicalMemoryManager.Valid, Held;
  }

  lemma SafeParts(v: View, usable: seq<bool>)
    requires ManagerSafe(v, usable)
    ensures Sound(v.mem, v.forest) && Held(v.used, usable, v.forest) && P.InRam(v.mem, |v.used|)
  {
  }

  /** The frames a block of whole pages returns hold no table and no recorded page. */
  lemma FreeSafe(v: View, usable: seq<bool>, blocks: Blocks, a: nat, s: nat, n: nat)
    requires ManagerSafe(v, usable) && Clear(blocks, v.forest) && a in blocks && a == PageOf(s)
             && blocks[a] == n * PAGE_SIZE && s + n <= |v.used|
    ensures ManagerSafe(View(v.mem, v.forest, P.Marked(v.used, s, n, false)), usable)
  {
    hide Sound, P.Marked;
    forall f | s <= f < s + n ensures f !in v.forest {
      InBlock(s, n, f);
      OffForest(blocks, v.forest, a, f);
    }
  }

  lemma FewerClear(blocks: Blocks, blocks': Blocks, forest: Forest)
    requires Clear(blocks, forest) && forall a :: a in blocks' ==> a in blocks && blocks'[a] == blocks[a]
    ensures Clear(blocks', forest)
  {
  }

  /** `kfree` keeps the manager's invariant and every translation. */
  method KfreeBeside(km: KernelMemory, vmm: V.VirtualMemoryManager, ptr: nat)
    requires Coexist(km, vmm) && (ptr == 0 || (ptr >= HEADER && ptr - HEADER in km.heap.blocks))
    modifies km.heap, vmm.pmm.bitmap, vmm.pmm`used, vmm.pmm`freeFrames, vmm.pmm`allocatedFrames, vmm.pmm`lastSearchFrame
    ensures Coexist(km, vmm)
  {
    hide HeapOk, P.PhysicalMemoryManager.Valid, Sound, Held, OwnersElsewhere, Housed, Owned, Clear, P.Marked, P.InRam,
         ManagerSafe;
    ghost var v, blocks, live := vmm.Now(), km.heap.blocks, km.heap.live;
    ManagerIsSafe(vmm);
    LiveSizes(km.heap.mem, blocks, km.heap.heads, km.heap.free, live);
    km.Kfree(ptr);
    FewerClear(blocks, km.heap.blocks, v.forest);
    if ptr != 0 && ptr - HEADER in live && live[ptr - HEADER].bin >= NUM_SLABS {
      ghost var a := ptr - HEADER;
      ghost var s: nat :| PageOf(s) == a && s + live[a].pages <= |v.used|
                          && vmm.pmm.used == P.Marked(v.used, s, live[a].pages, false);
      FreeSafe(v, vmm.pmm.usable, blocks, a, s, live[a].pages);
      SafeParts(vmm.Now(), vmm.pmm.usable);
    }
  }
}
