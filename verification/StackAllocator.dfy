/** kernel/threading/stack_allocator.cpp: kernel stacks in their window of the kernel half, each below an unmapped
    guard page. */
module Stacks {
  import opened Machine
  import opened PagingTypes
  import opened Ram
  import opened Pmm
  import opened PageTables
  import opened Ownership
  import opened BootTables
  import opened Vmm
  import opened Threads

  const PAGES_PER_SLOT: nat := 5
  const THREAD_STACK_BASE: int := 0xFFFF_FFFF_7200_0000
  const WINDOW_PAGES: nat := MAX_STACK_SLOTS * PAGES_PER_SLOT
  const SLOT_SIZE: int := PAGES_PER_SLOT * PAGE_SIZE

  /** Address of page `n` of the window; page `5 * slot` is the guard page of `slot`. */
  function PageVa(n: nat): u64
    requires n < WINDOW_PAGES
  {
    THREAD_STACK_BASE + n * PAGE_SIZE
  }

  /** `is_guard_page_address`. */
  predicate IsGuardAddress(va: u64)
  {
    && THREAD_STACK_BASE <= va < THREAD_STACK_BASE + MAX_STACK_SLOTS * SLOT_SIZE
    && (va - THREAD_STACK_BASE) % SLOT_SIZE < PAGE_SIZE
  }

  /** Guard addresses are exactly the addresses of the window's guard pages. */
  lemma GuardAddresses(va: u64)
    ensures IsGuardAddress(va) <==>
              exists slot: nat ::
                slot < MAX_STACK_SLOTS
                && PageVa(slot * PAGES_PER_SLOT) <= va < PageVa(slot * PAGES_PER_SLOT) + PAGE_SIZE
  {
    var off := va - THREAD_STACK_BASE;
    if IsGuardAddress(va) {
      var slot: nat := off / SLOT_SIZE;
      assert off == slot * SLOT_SIZE + off % SLOT_SIZE;
      assert PageVa(slot * PAGES_PER_SLOT) == THREAD_STACK_BASE + slot * SLOT_SIZE;
    }
    if slot: nat :|
         slot < MAX_STACK_SLOTS && PageVa(slot * PAGES_PER_SLOT) <= va < PageVa(slot * PAGES_PER_SLOT) + PAGE_SIZE {
      assert off == slot * SLOT_SIZE + (off - slot * SLOT_SIZE);
      assert off % SLOT_SIZE == off - slot * SLOT_SIZE;
    }
  }

  const STACK_RIGHTS: Flags := NO_FLAGS.(present := true, writable := true, noExecute := true)

  lemma WindowPaths(n: nat, m: nat)
    requires n < WINDOW_PAGES && m < WINDOW_PAGES
    ensures Canonical(PageVa(n)) && PageAligned(PageVa(n)) && PathOf(PageVa(n)).i4 >= 256
    ensures PathOf(PageVa(n)) == PathOf(PageVa(m)) ==> n == m
  {
    TopIndex(PageVa(n));
    if PathOf(PageVa(n)) == PathOf(PageVa(m)) {
      PathIdentifiesPage(PageVa(n), PageVa(m));
    }
  }

  /** Frame of the stack page at position `n` of the window. */
  function FrameAt(bases: map<nat, nat>, n: nat): nat
    requires n / PAGES_PER_SLOT in bases
  {
    bases[n / PAGES_PER_SLOT] + (if n % PAGES_PER_SLOT == 0 then 0 else n % PAGES_PER_SLOT - 1)
  }

  predicate Usable(bases: map<nat, nat>, n: nat)
  {
    n % PAGES_PER_SLOT != 0 && n / PAGES_PER_SLOT in bases
  }

  /** What the kernel's tables show at page `n`: a stack page of a slot in use, and otherwise nothing. */
  function Expected(bases: map<nat, nat>, n: nat): Leaf
  {
    if Usable(bases, n) then Small(FrameAt(bases, n), STACK_RIGHTS) else Unmapped
  }

  ghost predicate WindowShows(mem: Memory, r: nat, bases: map<nat, nat>)
  {
    forall n: nat {:trigger PageVa(n)} :: n < WINDOW_PAGES ==> Walk(mem, r, PathOf(PageVa(n))) == Expected(bases, n)
  }

  /** The frames of stacks in use are allocated, not part of any page table, and not shared. */
  ghost predicate FramesHeld(forest: Forest, used: seq<bool>, usable: seq<bool>, bases: map<nat, nat>)
  {
    && |used| == |usable|
    && (forall k, p {:trigger StackFrame(bases, k, p)} :: k in bases && 0 <= p < STACK_USABLE_PAGES ==>
          var f := StackFrame(bases, k, p); 0 < f < |used| && used[f] && usable[f] && f !in forest)
    && (forall k, p, k', p' {:trigger StackFrame(bases, k, p), StackFrame(bases, k', p')} ::
          k in bases && k' in bases && k != k' && 0 <= p < STACK_USABLE_PAGES && 0 <= p' < STACK_USABLE_PAGES ==>
            StackFrame(bases, k, p) != StackFrame(bases, k', p'))
  }

  function StackFrame(bases: map<nat, nat>, k: nat, p: int): int
    requires k in bases
  {
    bases[k] + p
  }

  /** Guard pages are never mapped. */
  lemma GuardsUnmapped(mem: Memory, r: nat, bases: map<nat, nat>, slot: nat)
    requires WindowShows(mem, r, bases) && slot < MAX_STACK_SLOTS
    ensures Walk(mem, r, PathOf(PageVa(slot * PAGES_PER_SLOT))) == Unmapped
  {
    assert (slot * PAGES_PER_SLOT) % PAGES_PER_SLOT == 0;
  }

  /** Slot `k`, in use, by its addresses: the lowest page is not there, the four above it are consecutive frames that
      kernel code can read and write, but not execute; and it is not there at all while free. */
  lemma SlotByAddress(mem: Memory, r: nat, bases: map<nat, nat>, k: nat, p: nat)
    requires WindowShows(mem, r, bases) && k < 64 && p < 5
    ensures var leaf := Walk(mem, r, PathOf(0xFFFF_FFFF_7200_0000 + k * 0x5000 + p * 0x1000));
            && (leaf != Unmapped <==> k in bases && p > 0)
            && (k in bases && p > 0 ==>
                 && leaf.Small? && leaf.frame == bases[k] + p - 1
                 && leaf.flags.present && leaf.flags.writable && leaf.flags.noExecute && !leaf.flags.user)
  {
    hide Walk, PathOf;
    var n := 5 * k + p;
    assert n % 5 == p && n / 5 == k;
    assert PageVa(n) == 0xFFFF_FFFF_7200_0000 + k * 0x5000 + p * 0x1000;
  }

  /** The window lies below the direct map. */
  lemma WindowPath(n: nat)
    requires n < WINDOW_PAGES
    ensures PathOf(PageVa(n)).i4 == 511 && PathOf(PageVa(n)).i3 == 509
  {
    WindowQuotients(PageVa(n));
  }

  lemma WindowQuotients(va: u64)
    requires 0xFFFF_FFFF_4000_0000 <= va < 0xFFFF_FFFF_8000_0000
    ensures va / 0x80_0000_0000 == 0x1FF_FFFF && va / 0x4000_0000 == 0x3_FFFF_FFFD
  {
  }

  /** After boot the window is empty: the state a stack allocator starts from. */
  lemma BootedWindow(used0: seq<bool>, used: seq<bool>, usable: seq<bool>, mem: Memory, forest: Forest, fs: seq<nat>,
                     s: Sections)
    requires Booted(used0, used, usable, mem, forest, fs, s)
    ensures WindowShows(mem, fs[0], map[])
  {
    hide UpperTables, LowerTables, Walk, PathOf;
    forall n: nat | n < WINDOW_PAGES ensures Walk(mem, fs[0], PathOf(PageVa(n))) == Unmapped {
      WindowPath(n);
      BootWalk(mem, BootOf(fs), s, PathOf(PageVa(n)));
    }
  }

  /** A root that shares the kernel's table shows the same window: its guard pages are not mapped either. */
  lemma SharedWindow(mem: Memory, k: nat, r: nat, bases: map<nat, nat>)
    requires WindowShows(mem, k, bases) && Shares(mem, k, r, 511) && EntryAt(mem, k, 511).Present()
    ensures WindowShows(mem, r, bases)
    ensures forall slot: nat :: slot < MAX_STACK_SLOTS ==>
              Walk(mem, r, PathOf(PageVa(slot * PAGES_PER_SLOT))) == Unmapped
  {
    hide PathOf, Expected;
    forall n: nat | n < WINDOW_PAGES ensures Walk(mem, r, PathOf(PageVa(n))) == Expected(bases, n) {
      WindowPath(n);
      assert Walk(mem, k, PathOf(PageVa(n))) == Expected(bases, n);
    }
    forall slot: nat | slot < MAX_STACK_SLOTS ensures Walk(mem, r, PathOf(PageVa(slot * PAGES_PER_SLOT))) == Unmapped {
      GuardsUnmapped(mem, r, bases, slot);
    }
  }

  // ---------------------------------------------------------------- mapping a run of pages

  predicate InRun(first: nat, n: nat, p: Path)
    requires first + n <= WINDOW_PAGES
  {
    exists i :: first <= i < first + n && PathOf(PageVa(i)) == p
  }

  /** Outside pages `[first, first + n)` of the window no translation changed; the forest grew by tables only. */
  ghost predicate OnlyRun(a: View, b: View, first: nat, n: nat)
    requires first + n <= WINDOW_PAGES
  {
    && Grown(a.forest, b.forest) && TakenForTables(a, b) && TopKept(a.mem, b.mem, a.forest)
    && forall r, p {:trigger Walk(b.mem, r, p)} :: IsTable(a.forest, r, 4) && !InRun(first, n, p) ==>
         Walk(b.mem, r, p) == Walk(a.mem, r, p)
  }

  /** ... and under `r` the first `n` of them show frames `[s, s + n)`. */
  ghost predicate RunMapped(mem: Memory, r: nat, first: nat, n: nat, s: nat)
    requires first + n <= WINDOW_PAGES
  {
    forall i {:trigger PageVa(i)} :: first <= i < first + n ==>
      Walk(mem, r, PathOf(PageVa(i))) == Small(s + (i - first), STACK_RIGHTS)
  }

  lemma RunGrows(first: nat, n: nat, p: Path)
    requires first + n < WINDOW_PAGES
    ensures InRun(first, n + 1, p) <==> InRun(first, n, p) || p == PathOf(PageVa(first + n))
  {
    hide PathOf;
    if InRun(first, n, p) {
      var i :| first <= i < first + n && PathOf(PageVa(i)) == p;
      assert first <= i < first + n + 1;
    }
    assert first <= first + n < first + n + 1;
  }

  lemma NotInRun(first: nat, n: nat, m: nat)
    requires first + n <= WINDOW_PAGES && m < WINDOW_PAGES && !(first <= m < first + n)
    ensures !InRun(first, n, PathOf(PageVa(m)))
  {
    forall i | first <= i < first + n ensures PathOf(PageVa(i)) != PathOf(PageVa(m)) { WindowPaths(i, m); }
  }

  /** One more page of the run mapped. */
  lemma RunMapsOne(a: View, b: View, c: View, r: nat, first: nat, n: nat, s: nat)
    requires first + n < WINDOW_PAGES && OnlyRun(a, b, first, n) && RunMapped(b.mem, r, first, n, s)
    requires IsTable(a.forest, r, 4) && MapsOnly(b, c, r, PathOf(PageVa(first + n)), Small(s + n, STACK_RIGHTS))
    ensures OnlyRun(a, c, first, n + 1) && RunMapped(c.mem, r, first, n + 1, s)
  {
    hide PathOf, Walk, InRun, ChangedWhereShared, TopKept;
    forall r', p | IsTable(a.forest, r', 4) && !InRun(first, n + 1, p)
      ensures Walk(c.mem, r', p) == Walk(a.mem, r', p)
    {
      RunGrows(first, n, p);
      assert Walk(b.mem, r', p) == Walk(a.mem, r', p);
    }
    forall i | first <= i < first + n + 1
      ensures Walk(c.mem, r, PathOf(PageVa(i))) == Small(s + (i - first), STACK_RIGHTS)
    {
      WindowPaths(i, first + n);
    }
    TablesTaken(a, b, c);
    TopKeptTrans(a.mem, a.forest, b.mem, b.forest, c.mem);
  }

  lemma TablesTaken(a: View, b: View, c: View)
    requires Grown(a.forest, b.forest) && TakenForTables(a, b) && Grown(b.forest, c.forest) && TakenForTables(b, c)
    ensures Grown(a.forest, c.forest) && TakenForTables(a, c)
  {
    forall f | f in c.forest && f !in a.forest ensures f < |a.used| && !a.used[f] {
      if f !in b.forest { assert f < |b.used| && !b.used[f]; }
    }
  }

  /** A refused mapping changes nothing visible. */
  lemma RunExtends(a: View, b: View, c: View, r: nat, first: nat, n: nat, s: nat)
    requires first + n <= WINDOW_PAGES && OnlyRun(a, b, first, n) && RunMapped(b.mem, r, first, n, s)
    requires IsTable(a.forest, r, 4) && Extends(b, c, r, false)
    ensures OnlyRun(a, c, first, n) && RunMapped(c.mem, r, first, n, s)
  {
    hide PathOf, Walk, InRun, ChangedWhereShared, TopKept;
    assert IsTable(b.forest, r, 4);
    forall r', p | IsTable(a.forest, r', 4) && !InRun(first, n, p) ensures Walk(c.mem, r', p) == Walk(a.mem, r', p) {
      assert IsTable(b.forest, r', 4) && Walk(b.mem, r', p) == Walk(a.mem, r', p);
    }
    TablesTaken(a, b, c);
    TopKeptTrans(a.mem, a.forest, b.mem, b.forest, c.mem);
  }

  /** The first `k` pages of the run are gone again. */
  ghost predicate RunCleared(mem: Memory, r: nat, first: nat, k: nat)
    requires first + k <= WINDOW_PAGES
  {
    forall i {:trigger PageVa(i)} :: first <= i < first + k ==> Walk(mem, r, PathOf(PageVa(i))) == Unmapped
  }

  lemma RunUnmapsOne(a: View, b: View, mem': Memory, r: nat, first: nat, n: nat, k: nat, s: nat)
    requires first + n <= WINDOW_PAGES && k < n && OnlyRun(a, b, first, n) && IsTable(a.forest, r, 4)
    requires RunCleared(b.mem, r, first, k) && RunMapped(b.mem, r, first + k, n - k, s + k)
    requires UnmapsOnly(b.mem, mem', b.forest, r, PathOf(PageVa(first + k)))
    ensures OnlyRun(a, View(mem', b.forest, b.used), first, n)
    ensures RunCleared(mem', r, first, k + 1) && RunMapped(mem', r, first + k + 1, n - k - 1, s + k + 1)
  {
    hide PathOf, Walk, InRun, ChangedWhereShared, TopKept;
    assert IsTable(b.forest, r, 4);
    forall r', p | IsTable(a.forest, r', 4) && !InRun(first, n, p) ensures Walk(mem', r', p) == Walk(a.mem, r', p) {
      assert IsTable(b.forest, r', 4) && Walk(b.mem, r', p) == Walk(a.mem, r', p);
      if p == PathOf(PageVa(first + k)) { InRunHas(first, n, first + k); }
    }
    forall i | first <= i < first + n && i != first + k
      ensures Walk(mem', r, PathOf(PageVa(i))) == Walk(b.mem, r, PathOf(PageVa(i)))
    {
      WindowPaths(i, first + k);
    }
    TopKeptTrans(a.mem, a.forest, b.mem, b.forest, mem');
  }

  lemma InRunHas(first: nat, n: nat, i: nat)
    requires first + n <= WINDOW_PAGES && first <= i < first + n
    ensures InRun(first, n, PathOf(PageVa(i)))
  {
    hide PathOf;
  }

  // ---------------------------------------------------------------- frames

  lemma DataWriteSameWalks(mem: Memory, forest: Forest, f: nat, page: Page)
    requires Sound(mem, forest) && f in mem && f !in forest
    ensures SameWalks(mem, mem[f := page], forest)
  {
    hide Sound, Walk;
    forall r, p | IsTable(forest, r, 4) ensures Walk(mem[f := page], r, p) == Walk(mem, r, p) {
      DataWriteKeepsWalk(mem, forest, f, page, r, p);
    }
  }

  lemma SameWalksChain(a: Memory, b: Memory, c: Memory, forest: Forest)
    requires SameWalks(a, b, forest) && SameWalks(b, c, forest)
    ensures SameWalks(a, c, forest)
  {
    hide Walk;
    forall r, p | IsTable(forest, r, 4)
      ensures Walk(c, r, p) == Walk(a, r, p)
    {
      assert Walk(b, r, p) == Walk(a, r, p);
    }
  }

  /** Clearing frames that are no tables disturbs neither the forest nor any translation. */
  lemma {:induction false} ZeroedHarmless(mem: Memory, forest: Forest, s: nat, n: nat)
    requires Sound(mem, forest) && forall f :: s <= f < s + n ==> f in mem && f !in forest
    ensures Sound(Zeroed(mem, s, n), forest) && SameWalks(mem, Zeroed(mem, s, n), forest)
            && TopKept(mem, Zeroed(mem, s, n), forest)
  {
    hide Sound, SameWalks;
    if n == 0 {
      SameWalksSelf(mem, forest);
    } else {
      ZeroedHarmless(mem, forest, s, n - 1);
      var m := Zeroed(mem, s, n - 1);
      DataWriteSound(m, forest, s + n - 1, Zero, 0);
      DataWriteSameWalks(m, forest, s + n - 1, Zero);
      SameWalksChain(mem, m, Zeroed(mem, s, n), forest);
    }
    ZeroedTop(mem, forest, s, n);
  }

  lemma ZeroedTop(mem: Memory, forest: Forest, s: nat, n: nat)
    requires forall f :: s <= f < s + n ==> f !in forest
    ensures TopKept(mem, Zeroed(mem, s, n), forest)
  {
  }

  lemma TopKeptSelf(mem: Memory, forest: Forest)
    ensures TopKept(mem, mem, forest)
  {
  }

  // ---------------------------------------------------------------- every address space

  /** Every root has the table of the kernel's last 512 GiB, where the window lies. */
  ghost predicate AllShare(mem: Memory, forest: Forest, k: nat)
  {
    EntryAt(mem, k, 511).Present() && forall r :: IsTable(forest, r, 4) ==> Shares(mem, k, r, 511)
  }

  lemma SharesKept(mem: Memory, forest: Forest, mem': Memory, forest': Forest, k: nat)
    requires AllShare(mem, forest, k) && IsTable(forest, k, 4) && TopKept(mem, mem', forest)
    requires forall r :: IsTable(forest', r, 4) ==> IsTable(forest, r, 4)
    ensures AllShare(mem', forest', k)
  {
    forall r | IsTable(forest', r, 4) ensures Shares(mem', k, r, 511) {
      assert Shares(mem, k, r, 511);
    }
  }

  lemma GrownRoots(forest: Forest, forest': Forest)
    requires Grown(forest, forest')
    ensures forall r :: IsTable(forest', r, 4) ==> IsTable(forest, r, 4)
  {
  }

  /** A new address space shares it, */
  lemma NewRootShares(mem: Memory, mem': Memory, forest: Forest, k: nat, r: nat)
    requires AllShare(mem, forest, k) && IsTable(forest, k, 4) && UserRootEntries(mem, mem', k, r) && r !in forest
             && r in mem
    requires forall t :: t in forest && forest[t].level >= 1 ==> t in mem
    ensures AllShare(mem', WithRoot(forest, r), k)
  {
    forall t | IsTable(WithRoot(forest, r), t, 4) ensures Shares(mem', k, t, 511) {
      if t != r { assert Shares(mem, k, t, 511); }
    }
  }

  /** a destroyed one leaves the others sharing it, */
  lemma RemainingShare(mem: Memory, mem': Memory, forest: Forest, gone: set<nat>, k: nat)
    requires AllShare(mem, forest, k) && IsTable(forest, k, 4) && k !in gone && OnlyWithin(mem, mem', gone)
    ensures AllShare(mem', Without(forest, gone), k)
  {
    forall t | IsTable(Without(forest, gone), t, 4) ensures Shares(mem', k, t, 511) { assert Shares(mem, k, t, 511); }
  }

  /** and after boot there is only the kernel's. */
  lemma BootedShares(used0: seq<bool>, used: seq<bool>, usable: seq<bool>, mem: Memory, forest: Forest, fs: seq<nat>,
                     s: Sections)
    requires Booted(used0, used, usable, mem, forest, fs, s)
    ensures AllShare(mem, forest, fs[0])
  {
  }

  /** In every address space the window shows the stacks, and no guard page. */
  lemma EveryRootShows(mem: Memory, forest: Forest, k: nat, bases: map<nat, nat>, r: nat)
    requires AllShare(mem, forest, k) && WindowShows(mem, k, bases) && IsTable(forest, r, 4)
    ensures WindowShows(mem, r, bases)
    ensures forall slot: nat :: slot < MAX_STACK_SLOTS ==>
              Walk(mem, r, PathOf(PageVa(slot * PAGES_PER_SLOT))) == Unmapped
  {
    hide WindowShows;
    SharedWindow(mem, k, r, bases);
  }

  /** The run `[s, s + 4)` was free, and now belongs to the caller. */
  ghost predicate RunTaken(a: View, b: View, usable: seq<bool>, s: nat)
  {
    && 0 < s && FreeRun(a.used, s, STACK_USABLE_PAGES) && b.used == Marked(a.used, s, STACK_USABLE_PAGES, true)
    && b.forest == a.forest && |usable| == |a.used|
    && (forall f :: s <= f < s + STACK_USABLE_PAGES ==> usable[f] && f !in a.forest)
    && SameWalks(a.mem, b.mem, a.forest) && TopKept(a.mem, b.mem, a.forest)
  }

  /** Why four frames could not be had or mapped: allocation is made to fail, the free frames are too few or lie in
      no run of four, or the page tables used up all others, so that no more than the four frames are free
      afterwards. */
  ghost predicate NoStackMemory(used: seq<bool>, hint: nat, free: nat, forced: bool, freeAfter: nat)
  {
    forced || free < STACK_USABLE_PAGES || NoRunFound(used, hint, STACK_USABLE_PAGES) || freeAfter <= STACK_USABLE_PAGES
  }

  method TakeRun(vmm: VirtualMemoryManager) returns (pa: u64)
    requires vmm.Valid()
    modifies vmm.ram, vmm.pmm.bitmap, vmm.pmm`used, vmm.pmm`freeFrames, vmm.pmm`allocatedFrames, vmm.pmm`lastSearchFrame
    ensures vmm.Valid()
    ensures pa == 0 ==> vmm.Now() == old(vmm.Now())
    ensures pa == 0 ==>
              NoStackMemory(old(vmm.pmm.used), old(vmm.pmm.lastSearchFrame), old(vmm.pmm.freeFrames),
                vmm.pmm.forceAllocFailure, vmm.pmm.freeFrames)
    ensures pa != 0 ==> PageAligned(pa) && RunTaken(old(vmm.Now()), vmm.Now(), vmm.pmm.usable, pa / PAGE_SIZE)
  {
    hide Sound, SameWalks, TopKept, BestRun, NoRunFound, FirstFit, PhysicalMemoryManager.Valid,
         PhysicalMemoryManager.Steady, Held, Marked, Zeroed, OwnersElsewhere, IsTable;
    PmmFree(vmm.pmm);
    ghost var used := vmm.pmm.used;
    pa := vmm.pmm.AllocPages(STACK_USABLE_PAGES);
    if pa != 0 {
      ghost var s := pa / PAGE_SIZE;
      FreeIsUsable(used, vmm.pmm.usable, vmm.forest, s, STACK_USABLE_PAGES);
      ZeroedHarmless(old(vmm.ram.frames), vmm.forest, s, STACK_USABLE_PAGES);
      SameWalksSelf(old(vmm.ram.frames), vmm.forest);
      TopKeptSelf(old(vmm.ram.frames), vmm.forest);
      HeldMarked(used, vmm.pmm.usable, vmm.forest, s, STACK_USABLE_PAGES, true);
      ZeroedKeys(old(vmm.ram.frames), s, STACK_USABLE_PAGES, vmm.pmm.totalFrames);
      assert vmm.pmm.used == Marked(used, s, STACK_USABLE_PAGES, true);
      assert Sound(vmm.ram.frames, vmm.forest) && InRam(vmm.ram.frames, vmm.pmm.totalFrames);
      assert SmallRam(vmm.pmm.used, vmm.pmm.usable, vmm.pmm.totalFrames);
      assert vmm.Valid();
    }
  }

  lemma HeldMarked(used: seq<bool>, usable: seq<bool>, forest: Forest, s: nat, n: nat, b: bool)
    requires Held(used, usable, forest) && s + n <= |used| && (forall f :: s <= f < s + n ==> f !in forest)
    ensures Held(Marked(used, s, n, b), usable, forest)
  {
  }

  lemma ZeroedKeys(mem: Memory, s: nat, n: nat, total: nat)
    requires InRam(mem, total)
    ensures InRam(Zeroed(mem, s, n), total)
  {
  }

  lemma PmmFree(pmm: PhysicalMemoryManager)
    requires pmm.Valid()
    ensures pmm.Steady() && pmm.initialized && |pmm.used| == |pmm.usable| && pmm.usable != [] && !pmm.usable[0]
    ensures forall f :: 0 <= f < |pmm.used| ==> pmm.used[f] || pmm.usable[f]
  {
  }

  lemma FreeIsUsable(used: seq<bool>, usable: seq<bool>, forest: Forest, s: nat, n: nat)
    requires |used| == |usable| && (forall f :: 0 <= f < |used| ==> used[f] || usable[f]) && FreeRun(used, s, n)
             && Held(used, usable, forest)
    ensures forall f :: s <= f < s + n ==> usable[f] && f !in forest
  {
  }

  method ReturnRun(vmm: VirtualMemoryManager, pa: u64)
    requires vmm.Valid() && PageAligned(pa) && pa / PAGE_SIZE + STACK_USABLE_PAGES <= |vmm.pmm.used|
    requires forall f :: pa / PAGE_SIZE <= f < pa / PAGE_SIZE + STACK_USABLE_PAGES ==>
               vmm.pmm.Allocated(f) && f !in vmm.forest
    modifies vmm.pmm.bitmap, vmm.pmm`used, vmm.pmm`freeFrames, vmm.pmm`allocatedFrames, vmm.pmm`lastSearchFrame
    ensures vmm.Valid() && vmm.pmm.used == Marked(old(vmm.pmm.used), pa / PAGE_SIZE, STACK_USABLE_PAGES, false)
    ensures vmm.pmm.freeFrames == old(vmm.pmm.freeFrames) + STACK_USABLE_PAGES
  {
    hide PhysicalMemoryManager.Valid, Sound, Held, OwnersElsewhere, Marked, Swept, SweepAllowed, IsTable;
    FreeCount(vmm.pmm);
    PmmFree(vmm.pmm);
    forall f | pa / PAGE_SIZE <= f < pa / PAGE_SIZE + STACK_USABLE_PAGES
      ensures vmm.pmm.used[f] && vmm.pmm.usable[f]
    {
      assert vmm.pmm.Allocated(f);
    }
    MoreFree(vmm.pmm.used, vmm.pmm.usable, pa / PAGE_SIZE, STACK_USABLE_PAGES);
    HeldMarked(vmm.pmm.used, vmm.pmm.usable, vmm.forest, pa / PAGE_SIZE, STACK_USABLE_PAGES, false);
    var ok := vmm.pmm.FreePages(pa, STACK_USABLE_PAGES);
    FreeCount(vmm.pmm);
  }

  lemma FirstPage(slot: nat, i: nat)
    requires slot < MAX_STACK_SLOTS && i < STACK_USABLE_PAGES
    ensures var n := slot * PAGES_PER_SLOT + 1 + i;
            n < WINDOW_PAGES && n / PAGES_PER_SLOT == slot && n % PAGES_PER_SLOT == 1 + i
  {
  }

  /** The pages a slot uses, and only they, tell two windows apart. */
  lemma ExpectedElsewhere(bases: map<nat, nat>, bases': map<nat, nat>, slot: nat, n: nat)
    requires slot < MAX_STACK_SLOTS && n < WINDOW_PAGES
             && !(slot * PAGES_PER_SLOT + 1 <= n < slot * PAGES_PER_SLOT + 1 + STACK_USABLE_PAGES)
    requires forall k :: k != slot ==> ((k in bases <==> k in bases') && (k in bases ==> bases'[k] == bases[k]))
    ensures Expected(bases', n) == Expected(bases, n)
  {
    if n / PAGES_PER_SLOT == slot {
      assert n == slot * PAGES_PER_SLOT + n % PAGES_PER_SLOT;
    }
  }

  /** The window after one slot's run was mapped. */
  lemma WindowMapped(a: View, b: View, r: nat, bases: map<nat, nat>, slot: nat, s: nat)
    requires WindowShows(a.mem, r, bases) && IsTable(a.forest, r, 4) && slot < MAX_STACK_SLOTS && slot !in bases
    requires OnlyRun(a, b, slot * PAGES_PER_SLOT + 1, STACK_USABLE_PAGES)
    requires RunMapped(b.mem, r, slot * PAGES_PER_SLOT + 1, STACK_USABLE_PAGES, s)
    ensures WindowShows(b.mem, r, bases[slot := s])
  {
    hide Walk, PathOf, InRun;
    var first := slot * PAGES_PER_SLOT + 1;
    forall n: nat | n < WINDOW_PAGES ensures Walk(b.mem, r, PathOf(PageVa(n))) == Expected(bases[slot := s], n) {
      if first <= n < first + STACK_USABLE_PAGES {
        FirstPage(slot, n - first);
      } else {
        NotInRun(first, STACK_USABLE_PAGES, n);
        ExpectedElsewhere(bases, bases[slot := s], slot, n);
      }
    }
  }

  /** The window after one slot's run was cleared. */
  lemma WindowCleared(a: View, b: View, r: nat, bases: map<nat, nat>, slot: nat, n: nat)
    requires WindowShows(a.mem, r, bases) && IsTable(a.forest, r, 4) && slot < MAX_STACK_SLOTS
             && n <= STACK_USABLE_PAGES
    requires OnlyRun(a, b, slot * PAGES_PER_SLOT + 1, n) && RunCleared(b.mem, r, slot * PAGES_PER_SLOT + 1, n)
    requires slot !in bases || n == STACK_USABLE_PAGES
    ensures WindowShows(b.mem, r, bases - {slot})
  {
    hide Walk, PathOf, InRun;
    var first := slot * PAGES_PER_SLOT + 1;
    forall m: nat | m < WINDOW_PAGES ensures Walk(b.mem, r, PathOf(PageVa(m))) == Expected(bases - {slot}, m) {
      if first <= m < first + STACK_USABLE_PAGES {
        FirstPage(slot, m - first);
        if m >= first + n { NotInRun(first, n, m); }
      } else {
        NotInRun(first, n, m);
        ExpectedElsewhere(bases, bases - {slot}, slot, m);
      }
    }
  }

  /** Before the run is mapped its pages show nothing. */
  lemma RunIsFree(mem: Memory, r: nat, bases: map<nat, nat>, slot: nat)
    requires WindowShows(mem, r, bases) && slot < MAX_STACK_SLOTS && slot !in bases
    ensures RunCleared(mem, r, slot * PAGES_PER_SLOT + 1, STACK_USABLE_PAGES)
  {
    hide Walk, PathOf;
    forall i | slot * PAGES_PER_SLOT + 1 <= i < slot * PAGES_PER_SLOT + 1 + STACK_USABLE_PAGES
      ensures Walk(mem, r, PathOf(PageVa(i))) == Unmapped
    {
      FirstPage(slot, i - slot * PAGES_PER_SLOT - 1);
    }
  }

  lemma RunShown(mem: Memory, r: nat, bases: map<nat, nat>, slot: nat)
    requires WindowShows(mem, r, bases) && slot < MAX_STACK_SLOTS && slot in bases
    ensures RunMapped(mem, r, slot * PAGES_PER_SLOT + 1, STACK_USABLE_PAGES, bases[slot])
  {
    hide Walk, PathOf;
    var first := slot * PAGES_PER_SLOT + 1;
    forall i | first <= i < first + STACK_USABLE_PAGES
      ensures Walk(mem, r, PathOf(PageVa(i))) == Small(bases[slot] + (i - first), STACK_RIGHTS)
    {
      FirstPage(slot, i - first);
    }
  }

  lemma NothingMappedYet(a: View, r: nat, first: nat, s: nat)
    requires first <= WINDOW_PAGES
    ensures OnlyRun(a, a, first, 0) && RunMapped(a.mem, r, first, 0, s)
  {
    hide Walk;
  }

  // ---------------------------------------------------------------- mapping and unmapping runs

  /** `map_page` for page `n` of the window. */
  method MapWindowPage(vmm: VirtualMemoryManager, n: nat, frame: nat) returns (ok: bool)
    requires vmm.Valid() && n < WINDOW_PAGES && frame < 0x8_0000
    modifies vmm`forest, vmm.ram, vmm.pmm.bitmap, vmm.pmm`used, vmm.pmm`freeFrames, vmm.pmm`allocatedFrames,
             vmm.pmm`lastSearchFrame
    ensures vmm.Valid()
    ensures ok ==>
              MapsOnly(old(vmm.Now()), vmm.Now(), vmm.root / PAGE_SIZE, PathOf(PageVa(n)), Small(frame, STACK_RIGHTS))
    ensures !ok ==> Extends(old(vmm.Now()), vmm.Now(), vmm.root / PAGE_SIZE, false)
    ensures !ok && Walk(old(vmm.ram.frames), vmm.root / PAGE_SIZE, PathOf(PageVa(n))) == Unmapped ==>
              vmm.pmm.forceAllocFailure || vmm.pmm.freeFrames == 0
  {
    hide PhysicalMemoryManager.Valid, Sound, Held, OwnersElsewhere, MapsOnly, Extends, PathOf;
    WindowPaths(n, n);
    FrameFits(frame);
    assert STACK_RIGHTS.(present := true) == STACK_RIGHTS;
    var status := vmm.MapPageInTable(0, PageVa(n), frame * PAGE_SIZE, STACK_RIGHTS);
    ok := status == Success;
  }

  /** `unmap_page` for a mapped page of the window. */
  method UnmapWindowPage(vmm: VirtualMemoryManager, n: nat)
    requires vmm.Valid() && n < WINDOW_PAGES && Walk(vmm.ram.frames, vmm.root / PAGE_SIZE, PathOf(PageVa(n))).Small?
    modifies vmm.ram
    ensures vmm.Valid()
            && UnmapsOnly(old(vmm.ram.frames), vmm.ram.frames, vmm.forest, vmm.root / PAGE_SIZE, PathOf(PageVa(n)))
  {
    hide PhysicalMemoryManager.Valid, Sound, Held, OwnersElsewhere, UnmapsOnly, PathOf, Walk;
    WindowPaths(n, n);
    var status := vmm.UnmapPage(PageVa(n));
  }

  /** Unmaps the first `n` pages of a run, all of them mapped. */
  method UnmapRun(vmm: VirtualMemoryManager, first: nat, n: nat, ghost a: View, ghost s: nat)
    requires vmm.Valid() && first + n <= WINDOW_PAGES && IsTable(a.forest, vmm.root / PAGE_SIZE, 4)
    requires OnlyRun(a, vmm.Now(), first, n) && RunMapped(vmm.ram.frames, vmm.root / PAGE_SIZE, first, n, s)
    modifies vmm.ram
    ensures vmm.Valid() && OnlyRun(a, vmm.Now(), first, n) && RunCleared(vmm.ram.frames, vmm.root / PAGE_SIZE, first, n)
  {
    hide VirtualMemoryManager.Valid, OnlyRun, PathOf, Walk, UnmapsOnly;
    ghost var r := vmm.root / PAGE_SIZE;
    for k := 0 to n
      invariant vmm.Valid() && OnlyRun(a, vmm.Now(), first, n)
      invariant RunCleared(vmm.ram.frames, r, first, k) && RunMapped(vmm.ram.frames, r, first + k, n - k, s + k)
    {
      ghost var b := vmm.Now();
      assert Walk(b.mem, r, PathOf(PageVa(first + k))).Small?;
      UnmapWindowPage(vmm, first + k);
      RunUnmapsOne(a, b, vmm.ram.frames, r, first, n, k, s);
    }
  }

  /** One page of a run; if it cannot be mapped, the pages before it are unmapped again. */
  method MapNext(vmm: VirtualMemoryManager, first: nat, p: nat, s: nat, ghost a: View) returns (ok: bool)
    requires vmm.Valid() && first + p < WINDOW_PAGES && s + p < 0x8_0000 && IsTable(a.forest, vmm.root / PAGE_SIZE, 4)
    requires OnlyRun(a, vmm.Now(), first, p) && RunMapped(vmm.ram.frames, vmm.root / PAGE_SIZE, first, p, s)
    requires Walk(vmm.ram.frames, vmm.root / PAGE_SIZE, PathOf(PageVa(first + p))) == Unmapped
    modifies vmm`forest, vmm.ram, vmm.pmm.bitmap, vmm.pmm`used, vmm.pmm`freeFrames, vmm.pmm`allocatedFrames,
             vmm.pmm`lastSearchFrame
    ensures vmm.Valid()
    ensures ok ==>
              OnlyRun(a, vmm.Now(), first, p + 1) && RunMapped(vmm.ram.frames, vmm.root / PAGE_SIZE, first, p + 1, s)
    ensures !ok ==> OnlyRun(a, vmm.Now(), first, p) && RunCleared(vmm.ram.frames, vmm.root / PAGE_SIZE, first, p)
    ensures !ok ==> vmm.pmm.forceAllocFailure || vmm.pmm.freeFrames == 0
  {
    hide VirtualMemoryManager.Valid, OnlyRun, PathOf, Walk, RunMapped, RunCleared, MapsOnly, Extends;
    ghost var b, r := vmm.Now(), vmm.root / PAGE_SIZE;
    ok := MapWindowPage(vmm, first + p, s + p);
    if ok {
      RunMapsOne(a, b, vmm.Now(), r, first, p, s);
    } else {
      RunExtends(a, b, vmm.Now(), r, first, p, s);
      UnmapRun(vmm, first, p, a, s);
    }
  }

  /** Maps a run of four frames, or nothing. */
  method MapRun(vmm: VirtualMemoryManager, first: nat, s: nat) returns (ok: bool, ghost done: nat)
    requires vmm.Valid() && first + STACK_USABLE_PAGES <= WINDOW_PAGES && s + STACK_USABLE_PAGES <= 0x8_0000
    requires RunCleared(vmm.ram.frames, vmm.root / PAGE_SIZE, first, STACK_USABLE_PAGES)
    modifies vmm`forest, vmm.ram, vmm.pmm.bitmap, vmm.pmm`used, vmm.pmm`freeFrames, vmm.pmm`allocatedFrames,
             vmm.pmm`lastSearchFrame
    ensures vmm.Valid() && done <= STACK_USABLE_PAGES && OnlyRun(old(vmm.Now()), vmm.Now(), first, done)
    ensures ok ==> done == STACK_USABLE_PAGES && RunMapped(vmm.ram.frames, vmm.root / PAGE_SIZE, first, done, s)
    ensures !ok ==> RunCleared(vmm.ram.frames, vmm.root / PAGE_SIZE, first, done)
    ensures !ok ==> vmm.pmm.forceAllocFailure || vmm.pmm.freeFrames == 0
  {
    hide VirtualMemoryManager.Valid, OnlyRun, RunMapped, RunCleared, VirtualMemoryManager.Now;
    KernelRoot(vmm);
    ghost var a := vmm.Now();
    NothingMappedYet(a, vmm.root / PAGE_SIZE, first, s);
    AsView(vmm);
    ok := true;
    for p := 0 to STACK_USABLE_PAGES
      invariant vmm.Valid() && OnlyRun(a, vmm.Now(), first, p)
                && RunMapped(vmm.ram.frames, vmm.root / PAGE_SIZE, first, p, s)
    {
      SameFrameCount(a, vmm.Now(), first, p);
      NextUnmapped(a, vmm.Now(), vmm.root / PAGE_SIZE, first, p);
      AsView(vmm);
      ok := MapNext(vmm, first, p, s, a);
      if !ok { return false, p; }
    }
    return true, STACK_USABLE_PAGES;
  }

  lemma NextUnmapped(a: View, b: View, r: nat, first: nat, p: nat)
    requires first + STACK_USABLE_PAGES <= WINDOW_PAGES && p < STACK_USABLE_PAGES && OnlyRun(a, b, first, p)
             && IsTable(a.forest, r, 4)
    requires RunCleared(a.mem, r, first, STACK_USABLE_PAGES)
    ensures Walk(b.mem, r, PathOf(PageVa(first + p))) == Unmapped
  {
    hide Walk, PathOf, InRun;
    NotInRun(first, p, first + p);
    assert Walk(a.mem, r, PathOf(PageVa(first + p))) == Unmapped;
  }

  lemma AsView(vmm: VirtualMemoryManager)
    ensures vmm.Now() == View(vmm.ram.frames, vmm.forest, vmm.pmm.used)
  {
  }

  lemma KernelRoot(vmm: VirtualMemoryManager)
    requires vmm.Valid()
    ensures IsTable(vmm.forest, vmm.root / PAGE_SIZE, 4)
  {
  }

  lemma SameFrameCount(a: View, b: View, first: nat, n: nat)
    requires first + n <= WINDOW_PAGES && OnlyRun(a, b, first, n)
    ensures |b.used| == |a.used|
  {
  }

  // ---------------------------------------------------------------- bookkeeping of frames

  lemma FramesKept(a: View, b: View, usable: seq<bool>, bases: map<nat, nat>)
    requires FramesHeld(a.forest, a.used, usable, bases) && TakenForTables(a, b)
    ensures FramesHeld(b.forest, b.used, usable, bases)
  {
    forall k, p | k in bases && 0 <= p < STACK_USABLE_PAGES
      ensures var f := StackFrame(bases, k, p); 0 < f < |b.used| && b.used[f] && usable[f] && f !in b.forest
    {
      var f := StackFrame(bases, k, p);
      assert 0 < f < |a.used| && a.used[f];
    }
  }

  /** A free run taken: the other stacks keep their frames. */
  lemma FramesRunTaken(a: View, t: View, usable: seq<bool>, bases: map<nat, nat>, s: nat)
    requires FramesHeld(a.forest, a.used, usable, bases) && RunTaken(a, t, usable, s)
    ensures FramesHeld(t.forest, t.used, usable, bases)
    ensures Apart(bases, s)
  {
    hide SameWalks;
    forall k, p | k in bases && 0 <= p < STACK_USABLE_PAGES
      ensures var f := StackFrame(bases, k, p);
              0 < f < |t.used| && t.used[f] && usable[f] && f !in t.forest && !(s <= f < s + STACK_USABLE_PAGES)
    {
      var f := StackFrame(bases, k, p);
      assert a.used[f];
    }
  }

  lemma FramesAdded(forest: Forest, used: seq<bool>, usable: seq<bool>, bases: map<nat, nat>, slot: nat, s: nat)
    requires FramesHeld(forest, used, usable, bases) && slot !in bases && 0 < s && s + STACK_USABLE_PAGES <= |used|
    requires forall f :: s <= f < s + STACK_USABLE_PAGES ==> used[f] && usable[f] && f !in forest
    requires Apart(bases, s)
    ensures FramesHeld(forest, used, usable, bases[slot := s])
  {
    var b := bases[slot := s];
    forall k, p | k in b && 0 <= p < STACK_USABLE_PAGES
      ensures var f := StackFrame(b, k, p); 0 < f < |used| && used[f] && usable[f] && f !in forest
      ensures k != slot ==>
                StackFrame(b, k, p) == StackFrame(bases, k, p) && !(s <= StackFrame(b, k, p) < s + STACK_USABLE_PAGES)
    {
      if k != slot { assert StackFrame(b, k, p) == StackFrame(bases, k, p); }
    }
  }

  lemma FramesReturned(forest: Forest, used: seq<bool>, usable: seq<bool>, bases: map<nat, nat>, s: nat)
    requires FramesHeld(forest, used, usable, bases) && s + STACK_USABLE_PAGES <= |used|
    requires Apart(bases, s)
    ensures FramesHeld(forest, Marked(used, s, STACK_USABLE_PAGES, false), usable, bases)
  {
    var used' := Marked(used, s, STACK_USABLE_PAGES, false);
    forall k, p | k in bases && 0 <= p < STACK_USABLE_PAGES
      ensures var f := StackFrame(bases, k, p); 0 < f < |used'| && used'[f] && usable[f] && f !in forest
    {
      assert used[StackFrame(bases, k, p)];
    }
  }

  /** Without one slot, the others neither use its frames nor lose their own. */
  lemma FramesDropped(forest: Forest, used: seq<bool>, usable: seq<bool>, bases: map<nat, nat>, slot: nat)
    requires FramesHeld(forest, used, usable, bases) && slot in bases
    ensures FramesHeld(forest, used, usable, bases - {slot})
    ensures var s := bases[slot];
            && s + STACK_USABLE_PAGES <= |used| && 0 < s
            && (forall f :: s <= f < s + STACK_USABLE_PAGES ==> used[f] && usable[f] && f !in forest)
            && Apart(bases - {slot}, s)
  {
    var b, s := bases - {slot}, bases[slot];
    forall f | s <= f < s + STACK_USABLE_PAGES ensures 0 < f < |used| && used[f] && usable[f] && f !in forest {
      assert f == StackFrame(bases, slot, f - s);
    }
    assert s == StackFrame(bases, slot, 0)
           && s + STACK_USABLE_PAGES - 1 == StackFrame(bases, slot, STACK_USABLE_PAGES - 1);
    forall k, p | k in b && 0 <= p < STACK_USABLE_PAGES
      ensures StackFrame(b, k, p) == StackFrame(bases, k, p) && !(s <= StackFrame(b, k, p) < s + STACK_USABLE_PAGES)
    {
      assert StackFrame(b, k, p) == StackFrame(bases, k, p);
      assert StackFrame(bases, slot, StackFrame(bases, k, p) - s) == StackFrame(bases, k, p);
    }
  }

  /** Taking a run, adding tables and returning the run leaves only the tables taken. */
  lemma RolledBack(a: View, t: View, c: View, usable: seq<bool>, s: nat)
    requires RunTaken(a, t, usable, s) && TakenForTables(t, c)
    ensures TakenForTables(a, View(c.mem, c.forest, Marked(c.used, s, STACK_USABLE_PAGES, false)))
    ensures forall f :: s <= f < s + STACK_USABLE_PAGES ==> c.used[f] && f !in c.forest
  {
    hide SameWalks;
    forall f | s <= f < s + STACK_USABLE_PAGES ensures c.used[f] && f !in c.forest { assert t.used[f]; }
  }

  lemma WindowKept(mem: Memory, mem': Memory, forest: Forest, r: nat, bases: map<nat, nat>)
    requires WindowShows(mem, r, bases) && SameWalks(mem, mem', forest) && IsTable(forest, r, 4)
    ensures WindowShows(mem', r, bases)
  {
    hide Walk, PathOf;
  }

  // ---------------------------------------------------------------- the allocator

  /** What holds of the memory side for a given set of stacks. */
  ghost predicate Backing(vmm: VirtualMemoryManager, bases: map<nat, nat>)
    reads vmm, vmm.pmm, vmm.pmm.bitmap, vmm.pmm.ram, vmm.ram, vmm.pmm.tracker
  {
    && vmm.Valid() && WindowShows(vmm.ram.frames, vmm.root / PAGE_SIZE, bases)
       && AllShare(vmm.ram.frames, vmm.forest, vmm.root / PAGE_SIZE)
    && FramesHeld(vmm.forest, vmm.pmm.used, vmm.pmm.usable, bases)
  }

  /** Frames for `slot`, mapped, or null with everything rolled back. */
  method Claim(vmm: VirtualMemoryManager, slot: nat, ghost bases: map<nat, nat>) returns (pa: u64)
    requires Backing(vmm, bases) && slot < MAX_STACK_SLOTS && slot !in bases
    modifies vmm`forest, vmm.ram, vmm.pmm.bitmap, vmm.pmm`used, vmm.pmm`freeFrames, vmm.pmm`allocatedFrames,
             vmm.pmm`lastSearchFrame
    ensures pa == 0 ==> Backing(vmm, bases) && TakenForTables(old(vmm.Now()), vmm.Now())
    ensures pa == 0 ==>
              NoStackMemory(old(vmm.pmm.used), old(vmm.pmm.lastSearchFrame), old(vmm.pmm.freeFrames),
                vmm.pmm.forceAllocFailure, vmm.pmm.freeFrames)
    ensures pa != 0 ==> PageAligned(pa) && Backing(vmm, bases[slot := pa / PAGE_SIZE])
  {
    hide VirtualMemoryManager.Valid, WindowShows, FramesHeld, RunTaken, TakenForTables, SameWalks, AllShare, TopKept;
    KernelRoot(vmm);
    ghost var a, r := vmm.Now(), vmm.root / PAGE_SIZE;
    pa := TakeRun(vmm);
    if pa == 0 {
      NothingTaken(a);
      return;
    }
    ghost var t := vmm.Now();
    FramesRunTaken(a, t, vmm.pmm.usable, bases, pa / PAGE_SIZE);
    RunTakenParts(a, t, vmm.pmm.usable, pa / PAGE_SIZE);
    WindowKept(a.mem, t.mem, a.forest, r, bases);
    SharesKept(a.mem, a.forest, t.mem, t.forest, r);
    var ok := MapClaimed(vmm, slot, pa, bases, a);
    if !ok { return 0; }
  }

  method MapClaimed(vmm: VirtualMemoryManager, slot: nat, pa: u64, ghost bases: map<nat, nat>, ghost a: View)
    returns (ok: bool)
    requires Backing(vmm, bases) && slot < MAX_STACK_SLOTS && slot !in bases && PageAligned(pa)
    requires RunTaken(a, vmm.Now(), vmm.pmm.usable, pa / PAGE_SIZE)
    requires Apart(bases, pa / PAGE_SIZE)
    modifies vmm`forest, vmm.ram, vmm.pmm.bitmap, vmm.pmm`used, vmm.pmm`freeFrames, vmm.pmm`allocatedFrames,
             vmm.pmm`lastSearchFrame
    ensures ok ==> Backing(vmm, bases[slot := pa / PAGE_SIZE])
    ensures !ok ==> Backing(vmm, bases) && TakenForTables(a, vmm.Now())
    ensures !ok ==> vmm.pmm.forceAllocFailure || vmm.pmm.freeFrames <= STACK_USABLE_PAGES
  {
    hide VirtualMemoryManager.Valid, WindowShows, FramesHeld, RunTaken, TakenForTables, OnlyRun, RunMapped, RunCleared,
         Apart, IsTable, AllShare, TopKept, Grown;
    KernelRoot(vmm);
    ghost var t, r := vmm.Now(), vmm.root / PAGE_SIZE;
    var s := pa / PAGE_SIZE;
    RunTakenParts(a, t, vmm.pmm.usable, s);
    RunIsFree(t.mem, r, bases, slot);
    RunInReach(vmm, a, t, s);
    ghost var done;
    ok, done := MapRun(vmm, slot * PAGES_PER_SLOT + 1, s);
    OnlyRunParts(t, vmm.Now(), slot * PAGES_PER_SLOT + 1, done);
    GrownRoots(t.forest, vmm.forest);
    SharesKept(t.mem, t.forest, vmm.ram.frames, vmm.forest, r);
    if ok {
      MapClaims(a, t, vmm.Now(), vmm.pmm.usable, r, bases, slot, s);
    } else {
      MapUndone(a, t, vmm.Now(), vmm.pmm.usable, r, bases, slot, s, done);
      GiveUp(vmm, pa, bases);
    }
  }

  lemma RunInReach(vmm: VirtualMemoryManager, a: View, t: View, s: nat)
    requires vmm.Valid() && RunTaken(a, t, vmm.pmm.usable, s)
    ensures s + STACK_USABLE_PAGES <= 0x8_0000
  {
    hide SameWalks, Sound;
    var last := s + STACK_USABLE_PAGES - 1;
    assert vmm.pmm.usable[last];
  }

  ghost predicate Apart(bases: map<nat, nat>, s: nat)
  {
    forall k, p :: k in bases && 0 <= p < STACK_USABLE_PAGES ==>
      !(s <= StackFrame(bases, k, p) < s + STACK_USABLE_PAGES)
  }

  lemma MapClaims(a: View, t: View, c: View, usable: seq<bool>, r: nat, bases: map<nat, nat>, slot: nat, s: nat)
    requires RunTaken(a, t, usable, s) && WindowShows(t.mem, r, bases) && FramesHeld(t.forest, t.used, usable, bases)
             && Apart(bases, s)
    requires IsTable(t.forest, r, 4) && slot < MAX_STACK_SLOTS && slot !in bases
    requires OnlyRun(t, c, slot * PAGES_PER_SLOT + 1, STACK_USABLE_PAGES)
    requires RunMapped(c.mem, r, slot * PAGES_PER_SLOT + 1, STACK_USABLE_PAGES, s)
    ensures WindowShows(c.mem, r, bases[slot := s]) && FramesHeld(c.forest, c.used, usable, bases[slot := s])
  {
    hide WindowShows, FramesHeld, RunTaken, TakenForTables, OnlyRun, RunMapped;
    RunTakenParts(a, t, usable, s);
    OnlyRunParts(t, c, slot * PAGES_PER_SLOT + 1, STACK_USABLE_PAGES);
    FramesKept(t, c, usable, bases);
    RolledBack(a, t, c, usable, s);
    WindowMapped(t, c, r, bases, slot, s);
    FramesAdded(c.forest, c.used, usable, bases, slot, s);
  }

  lemma MapUndone(a: View, t: View, c: View, usable: seq<bool>, r: nat, bases: map<nat, nat>, slot: nat, s: nat,
                  done: nat)
    requires RunTaken(a, t, usable, s) && WindowShows(t.mem, r, bases) && FramesHeld(t.forest, t.used, usable, bases)
    requires IsTable(t.forest, r, 4) && slot < MAX_STACK_SLOTS && slot !in bases && done <= STACK_USABLE_PAGES
    requires OnlyRun(t, c, slot * PAGES_PER_SLOT + 1, done) && RunCleared(c.mem, r, slot * PAGES_PER_SLOT + 1, done)
    ensures WindowShows(c.mem, r, bases) && FramesHeld(c.forest, c.used, usable, bases) && |c.used| == |usable|
    ensures s + STACK_USABLE_PAGES <= |c.used|
    ensures forall f :: s <= f < s + STACK_USABLE_PAGES ==> c.used[f] && usable[f] && f !in c.forest
    ensures TakenForTables(a, View(c.mem, c.forest, Marked(c.used, s, STACK_USABLE_PAGES, false)))
  {
    hide WindowShows, FramesHeld, RunTaken, TakenForTables, OnlyRun, RunCleared;
    RunTakenParts(a, t, usable, s);
    OnlyRunParts(t, c, slot * PAGES_PER_SLOT + 1, done);
    FramesKept(t, c, usable, bases);
    RolledBack(a, t, c, usable, s);
    WindowCleared(t, c, r, bases, slot, done);
    assert bases - {slot} == bases;
  }

  method GiveUp(vmm: VirtualMemoryManager, pa: u64, ghost bases: map<nat, nat>)
    requires Backing(vmm, bases) && PageAligned(pa)
             && pa / PAGE_SIZE + STACK_USABLE_PAGES <= |vmm.pmm.used| == |vmm.pmm.usable|
    requires forall f :: pa / PAGE_SIZE <= f < pa / PAGE_SIZE + STACK_USABLE_PAGES ==>
               vmm.pmm.used[f] && vmm.pmm.usable[f] && f !in vmm.forest
    requires Apart(bases, pa / PAGE_SIZE)
    modifies vmm.pmm.bitmap, vmm.pmm`used, vmm.pmm`freeFrames, vmm.pmm`allocatedFrames, vmm.pmm`lastSearchFrame
    ensures Backing(vmm, bases) && vmm.pmm.used == Marked(old(vmm.pmm.used), pa / PAGE_SIZE, STACK_USABLE_PAGES, false)
    ensures vmm.pmm.freeFrames == old(vmm.pmm.freeFrames) + STACK_USABLE_PAGES
  {
    hide VirtualMemoryManager.Valid, WindowShows, FramesHeld, AllShare;
    FramesReturned(vmm.forest, vmm.pmm.used, vmm.pmm.usable, bases, pa / PAGE_SIZE);
    AllocatedRun(vmm, pa / PAGE_SIZE);
    ReturnRun(vmm, pa);
  }

  method Unclaim(vmm: VirtualMemoryManager, slot: nat, base: u64, ghost bases: map<nat, nat>)
    requires Backing(vmm, bases) && slot < MAX_STACK_SLOTS && slot in bases && base == bases[slot] * PAGE_SIZE
    modifies vmm.ram, vmm.pmm.bitmap, vmm.pmm`used, vmm.pmm`freeFrames, vmm.pmm`allocatedFrames, vmm.pmm`lastSearchFrame
    ensures Backing(vmm, bases - {slot})
    ensures bases[slot] + STACK_USABLE_PAGES <= |old(vmm.pmm.used)|
    ensures vmm.pmm.used == Marked(old(vmm.pmm.used), bases[slot], STACK_USABLE_PAGES, false)
  {
    hide VirtualMemoryManager.Valid, WindowShows, FramesHeld, OnlyRun, RunMapped, RunCleared, AllShare, TopKept;
    KernelRoot(vmm);
    ghost var a, r, s := vmm.Now(), vmm.root / PAGE_SIZE, bases[slot];
    FramesSized(a.forest, a.used, vmm.pmm.usable, bases);
    FramesDropped(a.forest, a.used, vmm.pmm.usable, bases, slot);
    RunShown(a.mem, r, bases, slot);
    OnlyRunSelf(a, slot * PAGES_PER_SLOT + 1, STACK_USABLE_PAGES);
    UnmapRun(vmm, slot * PAGES_PER_SLOT + 1, STACK_USABLE_PAGES, a, s);
    WindowCleared(a, vmm.Now(), r, bases, slot, STACK_USABLE_PAGES);
    OnlyRunParts(a, vmm.Now(), slot * PAGES_PER_SLOT + 1, STACK_USABLE_PAGES);
    SharesKept(a.mem, a.forest, vmm.ram.frames, vmm.forest, r);
    assert base / PAGE_SIZE == s && base % PAGE_SIZE == 0;
    GiveUp(vmm, base, bases - {slot});
  }

  lemma FramesSized(forest: Forest, used: seq<bool>, usable: seq<bool>, bases: map<nat, nat>)
    requires FramesHeld(forest, used, usable, bases)
    ensures |used| == |usable|
  {
  }

  ghost predicate SlotsAgree(slots: seq<bool>, bases: map<nat, nat>)
  {
    |slots| == MAX_STACK_SLOTS && forall k {:trigger k in bases} :: k in bases <==> 0 <= k < MAX_STACK_SLOTS && slots[k]
  }

  lemma SlotsRange(slots: seq<bool>, bases: map<nat, nat>)
    requires SlotsAgree(slots, bases)
    ensures |slots| == MAX_STACK_SLOTS && forall k :: k in bases ==> k < MAX_STACK_SLOTS
  {
  }

  lemma SlotsUpdated(slots: seq<bool>, bases: map<nat, nat>, slot: nat, s: nat)
    requires SlotsAgree(slots, bases) && slot < MAX_STACK_SLOTS
    ensures SlotsAgree(slots[slot := true], bases[slot := s]) && SlotsAgree(slots[slot := false], bases - {slot})
    ensures slot in bases <==> slots[slot]
  {
  }

  class StackAllocator {
    const vmm: VirtualMemoryManager
    const inUse: array<bool>
    var pagesAllocated: nat
    var pagesReclaimed: nat
    var initialized: bool
    /** First frame of the stack in each slot in use. */
    ghost var bases: map<nat, nat>

    ghost predicate Valid()
      reads this, inUse, vmm, vmm.pmm, vmm.pmm.bitmap, vmm.pmm.ram, vmm.ram, vmm.pmm.tracker
    {
      initialized && SlotsAgree(inUse[..], bases) && Backing(vmm, bases)
    }

    constructor (vmm: VirtualMemoryManager)
      requires vmm.Valid() && WindowShows(vmm.ram.frames, vmm.root / PAGE_SIZE, map[])
               && AllShare(vmm.ram.frames, vmm.forest, vmm.root / PAGE_SIZE)
      ensures Valid() && this.vmm == vmm && fresh(inUse) && inUse[..] == seq(MAX_STACK_SLOTS, _ => false)
      ensures pagesAllocated == 0 && pagesReclaimed == 0 && bases == map[]
    {
      this.vmm := vmm;
      inUse := new bool[MAX_STACK_SLOTS](_ => false);
      pagesAllocated, pagesReclaimed, initialized, bases := 0, 0, true, map[];
      new;
      PmmFree(vmm.pmm);
    }

    method FindSlot() returns (slot: nat)
      requires inUse.Length == MAX_STACK_SLOTS
      ensures slot == FreeSlot(inUse[..], 0)
    {
      slot := 0;
      while slot < MAX_STACK_SLOTS && inUse[slot]
        invariant 0 <= slot <= MAX_STACK_SLOTS && FreeSlot(inUse[..], 0) == FreeSlot(inUse[..], slot)
      {
        slot := slot + 1;
      }
    }

    /** The stack of the lowest free slot, or nothing: a failure halfway is rolled back, and then every translation of
        the window, every stack and every counter is what it was. */
    method AllocateStack() returns (ok: bool, info: StackInfo)
      requires initialized ==> Valid()
      modifies this`pagesAllocated, this`bases, inUse
      modifies vmm`forest, vmm.ram, vmm.pmm.bitmap, vmm.pmm`used, vmm.pmm`freeFrames, vmm.pmm`allocatedFrames,
               vmm.pmm`lastSearchFrame
      ensures initialized ==> Valid()
      ensures ok ==> initialized && |old(inUse[..])| == MAX_STACK_SLOTS && FreeSlot(old(inUse[..]), 0) < MAX_STACK_SLOTS
      ensures ok ==>
                Allotted(old(inUse[..]), inUse[..], old(bases), bases, info)
                && pagesAllocated == old(pagesAllocated) + STACK_USABLE_PAGES
      ensures !ok ==> inUse[..] == old(inUse[..]) && pagesAllocated == old(pagesAllocated) && bases == old(bases)
      ensures !ok ==> TakenForTables(old(vmm.Now()), vmm.Now())
      ensures !ok && initialized ==>
                || (|old(inUse[..])| == MAX_STACK_SLOTS && FreeSlot(old(inUse[..]), 0) == MAX_STACK_SLOTS)
                || NoStackMemory(old(vmm.pmm.used), old(vmm.pmm.lastSearchFrame), old(vmm.pmm.freeFrames),
                  vmm.pmm.forceAllocFailure, vmm.pmm.freeFrames)
    {
      hide Backing, TakenForTables, SlotsAgree, NoStackMemory;
      NothingTaken(vmm.Now());
      info := NO_STACK;
      if !initialized { return false, info; }
      SlotsRange(inUse[..], bases);
      var slot := FindSlot();
      if slot == MAX_STACK_SLOTS { return false, info; }
      ghost var slots := inUse[..];
      SlotsUpdated(slots, bases, slot, 0);
      var pa := Claim(vmm, slot, bases);
      if pa == 0 { return false, info; }
      SlotsUpdated(slots, bases, slot, pa / PAGE_SIZE);
      inUse[slot] := true;
      assert inUse[..] == slots[slot := true];
      pagesAllocated := pagesAllocated + STACK_USABLE_PAGES;
      bases := bases[slot := pa / PAGE_SIZE];
      return true, StackInfo(slot, pa, STACK_USABLE_PAGES);
    }

    /** Unmaps and frees the stack recorded in `info`; a slot that is not in use is refused. */
    method FreeStack(info: StackInfo) returns (ok: bool)
      requires initialized ==> Valid()
      requires initialized && info.slot in bases ==> Records(info, bases)
      modifies this`pagesReclaimed, this`bases, inUse
      modifies vmm.ram, vmm.pmm.bitmap, vmm.pmm`used, vmm.pmm`freeFrames, vmm.pmm`allocatedFrames,
               vmm.pmm`lastSearchFrame
      ensures initialized ==> Valid()
      ensures ok <==> initialized && info.slot in old(bases)
      ensures ok ==> 0 <= info.slot < |old(inUse[..])| && inUse[..] == old(inUse[..])[info.slot := false]
      ensures ok ==> pagesReclaimed == old(pagesReclaimed) + info.pages && bases == old(bases) - {info.slot}
      ensures ok ==> old(bases)[info.slot] + STACK_USABLE_PAGES <= |old(vmm.pmm.used)|
      ensures ok ==> vmm.pmm.used == Marked(old(vmm.pmm.used), old(bases)[info.slot], STACK_USABLE_PAGES, false)
      ensures !ok ==>
                inUse[..] == old(inUse[..]) && pagesReclaimed == old(pagesReclaimed) && bases == old(bases)
                && vmm.Now() == old(vmm.Now())
    {
      hide Backing, SlotsAgree;
      if !initialized { return false; }
      SlotsRange(inUse[..], bases);
      if info.slot < 0 || info.slot >= MAX_STACK_SLOTS { return false; }
      ghost var slots := inUse[..];
      SlotsUpdated(slots, bases, info.slot, 0);
      if !inUse[info.slot] { return false; }
      BaseFits(vmm, bases, info.slot);
      Unclaim(vmm, info.slot, info.base, bases);
      inUse[info.slot] := false;
      assert inUse[..] == slots[info.slot := false];
      pagesReclaimed := pagesReclaimed + info.pages;
      bases := bases - {info.slot};
      return true;
    }
  }

  /** `info` describes the stack the allocator has in that slot. */
  ghost predicate Records(info: StackInfo, bases: map<nat, nat>)
  {
    info.slot in bases && info.base == bases[info.slot] * PAGE_SIZE && info.pages == STACK_USABLE_PAGES
  }

  /** The lowest free slot was marked and recorded. */
  ghost predicate Allotted(slots: seq<bool>, slots': seq<bool>, bases: map<nat, nat>, bases': map<nat, nat>,
                           info: StackInfo)
  {
    && |slots| == MAX_STACK_SLOTS && FreeSlot(slots, 0) < MAX_STACK_SLOTS && slots' == slots[FreeSlot(slots, 0) := true]
    && info.slot == FreeSlot(slots, 0) && Records(info, bases') && bases' == bases[info.slot := bases'[info.slot]]
  }

  lemma NothingTaken(a: View)
    ensures TakenForTables(a, a)
  {
  }

  lemma RunTakenParts(a: View, t: View, usable: seq<bool>, s: nat)
    requires RunTaken(a, t, usable, s)
    ensures 0 < s && s + STACK_USABLE_PAGES <= |t.used| == |usable| && SameWalks(a.mem, t.mem, a.forest)
            && t.forest == a.forest && TopKept(a.mem, t.mem, a.forest)
    ensures forall f :: s <= f < s + STACK_USABLE_PAGES ==> usable[f]
  {
  }

  lemma OnlyRunParts(a: View, b: View, first: nat, n: nat)
    requires first + n <= WINDOW_PAGES && OnlyRun(a, b, first, n)
    ensures TakenForTables(a, b) && |b.used| == |a.used| && Grown(a.forest, b.forest) && TopKept(a.mem, b.mem, a.forest)
  {
  }

  lemma OnlyRunSelf(a: View, first: nat, n: nat)
    requires first + n <= WINDOW_PAGES
    ensures OnlyRun(a, a, first, n)
  {
    hide Walk;
  }

  lemma AllocatedRun(vmm: VirtualMemoryManager, s: nat)
    requires s + STACK_USABLE_PAGES <= |vmm.pmm.used| == |vmm.pmm.usable|
    requires forall f :: s <= f < s + STACK_USABLE_PAGES ==> vmm.pmm.used[f] && vmm.pmm.usable[f]
    ensures forall f :: s <= f < s + STACK_USABLE_PAGES ==> vmm.pmm.Allocated(f)
  {
  }

  lemma BaseFits(vmm: VirtualMemoryManager, bases: map<nat, nat>, slot: nat)
    requires Backing(vmm, bases) && slot in bases
    ensures bases[slot] * PAGE_SIZE < TWO64
  {
    assert StackFrame(bases, slot, 0) == bases[slot];
  }

  /** `vmm` and stack allocator brought up in order: exactly when the tables can be built, and then no stack is in
      use. */
  method BringUp(vmm: VirtualMemoryManager, nxe: bool, s: Sections) returns (stacks: StackAllocator?)
    requires vmm.pmm.Valid() && InRam(vmm.ram.frames, vmm.pmm.totalFrames) && vmm.pmm.ram == vmm.ram
             && SmallRam(vmm.pmm.used, vmm.pmm.usable, vmm.pmm.totalFrames)
    modifies vmm, vmm.ram, vmm.pmm.bitmap, vmm.pmm`used, vmm.pmm`freeFrames, vmm.pmm`allocatedFrames,
             vmm.pmm`lastSearchFrame
    ensures stacks != null <==> nxe && !vmm.pmm.forceAllocFailure && old(vmm.pmm.freeFrames) >= 5
    ensures stacks != null ==> stacks.Valid() && stacks.vmm == vmm && stacks.bases == map[] && fresh(stacks)
  {
    hide VirtualMemoryManager.Valid, UpperTables, LowerTables, WindowShows, AllShare, ShowsDirect, LeavesOwned,
         PhysicalMemoryManager.Valid, SmallRam, InRam;
    ghost var used := vmm.pmm.used;
    var ok := vmm.Init(nxe, s);
    if !ok { return null; }
    ghost var fs :| Booted(used, vmm.pmm.used, vmm.pmm.usable, vmm.ram.frames, vmm.forest, fs, s)
                    && vmm.root == fs[0] * PAGE_SIZE;
    assert vmm.root / PAGE_SIZE == fs[0];
    BootedWindow(used, vmm.pmm.used, vmm.pmm.usable, vmm.ram.frames, vmm.forest, fs, s);
    BootedShares(used, vmm.pmm.used, vmm.pmm.usable, vmm.ram.frames, vmm.forest, fs, s);
    stacks := new StackAllocator(vmm);
  }
}
