/** kernel/memory/kalloc.cpp over kernel/memory/pmm.cpp: the heap's pages are frames of the page allocator, seen through
    the direct map. */
module KernelMemory {
  import opened Machine
  import opened Kalloc
  import B = BootTables
  import P = Pmm
  import V = Vmm

  /** `phys_to_virt` of a frame. */
  function PageOf(f: nat): nat
  {
    B.DIRECT_MAP_BASE + f * PAGE_SIZE
  }

  /** No block touches a free frame. */
  ghost predicate Housed(blocks: Blocks, used: seq<bool>)
  {
    forall a, f {:trigger blocks[a], used[f]} :: a in blocks && 0 <= f < |used| && !used[f] ==>
      Apart(a, blocks[a], PageOf(f), PAGE_SIZE)
  }

  /** `pages` frames handed out and not yet returned, seen from address `a` on. */
  predicate OwnsRun(a: nat, pages: nat, used: seq<bool>, usable: seq<bool>)
  {
    a >= B.DIRECT_MAP_BASE &&
    var s := (a - B.DIRECT_MAP_BASE) / PAGE_SIZE;
    a == PageOf(s) && P.AllAllocated(used, usable, s, pages)
  }

  /** Every block of whole pages owns its frames. */
  ghost predicate Owned(live: map<nat, Live>, used: seq<bool>, usable: seq<bool>)
  {
    forall a :: a in live && live[a].bin >= NUM_SLABS ==> OwnsRun(a, live[a].pages, used, usable)
  }

  // ---------------------------------------------------------------- taking frames

  ghost predicate Positive(blocks: Blocks)
  {
    forall a :: a in blocks ==> blocks[a] > 0
  }

  lemma AllPositive(mem: map<nat, Cell>, blocks: Blocks, heads: seq<nat>, free: seq<seq<nat>>, live: map<nat, Live>)
    requires HeapOk(mem, blocks, heads, free, live)
    ensures Positive(blocks) && AllApart(blocks) && |heads| == |free| == NUM_SLABS
  {
    hide ListOk, LiveOk;
    forall a | a in blocks ensures blocks[a] > 0 { BlockLength(mem, blocks, heads, free, live, a); }
  }

  /** A run of free frames lies outside every block. */
  lemma {:induction false} RunOutside(blocks: Blocks, used: seq<bool>, s: nat, n: nat)
    requires Housed(blocks, used) && Positive(blocks) && P.FreeRun(used, s, n) && n > 0
    ensures Outside(blocks, PageOf(s), n * PAGE_SIZE)
  {
    if n > 1 { RunOutside(blocks, used, s, n - 1); }
    assert !used[s + n - 1];
    forall a | a in blocks ensures Apart(a, blocks[a], PageOf(s), n * PAGE_SIZE) {
      assert Apart(a, blocks[a], PageOf(s + n - 1), PAGE_SIZE);
      if n > 1 { assert Apart(a, blocks[a], PageOf(s), (n - 1) * PAGE_SIZE); }
    }
  }

  /** What the page allocator hands over is what the heap asks for. */
  lemma RunGranted(blocks: Blocks, used: seq<bool>, usable: seq<bool>, total: nat, s: nat, n: nat)
    requires Housed(blocks, used) && Positive(blocks) && P.FreeRun(used, s, n) && n > 0
             && V.SmallRam(used, usable, total)
    requires forall f :: 0 <= f < |used| ==> used[f] || usable[f]
    ensures Granted(blocks, PageOf(s), n) && PageOf(s) > 0
  {
    hide Housed, Outside, Positive;
    assert usable[s + n - 1];
    RunOutside(blocks, used, s, n);
    AlignedPage(s);
  }

  lemma NothingGranted(blocks: Blocks, n: nat)
    ensures Granted(blocks, 0, n)
  {
  }

  lemma AlignedPage(s: nat)
    ensures PageAligned(PageOf(s))
  {
    assert PageOf(s) == (B.DIRECT_MAP_BASE / PAGE_SIZE + s) * PAGE_SIZE;
  }

  /** Every block added lies in the range. */
  ghost predicate AddedIn(blocks: Blocks, blocks': Blocks, lo: nat, len: nat)
  {
    forall a :: a in blocks' ==> (a in blocks && blocks'[a] == blocks[a]) || (lo <= a && a + blocks'[a] <= lo + len)
  }

  lemma {:induction false} CutInside(blocks: Blocks, page: nat, size: nat, n: nat)
    ensures AddedIn(blocks, CutBlocks(blocks, page, size, n), page, Span(n, size))
  {
    hide Span;
    if n > 0 {
      CutInside(blocks, page, size, n - 1);
      SpanStep(n, size);
    }
  }

  lemma HandedInside(free: seq<seq<nat>>, free': seq<seq<nat>>, blocks: Blocks, blocks': Blocks, size: nat, page: nat,
                     a: nat)
    requires HandedOut(free, free', blocks, blocks', size, page, a)
    ensures NeedsPages(free, size) ==> AddedIn(blocks, blocks', page, PagesFor(size) * PAGE_SIZE)
    ensures !NeedsPages(free, size) ==> blocks' == blocks
    ensures SlabBin(Needed(size)) == NUM_SLABS ==> a == page
  {
    hide SlabBin, Needed, CutBlocks, Cut, SlabSize;
    var bin := SlabBin(Needed(size));
    if bin < NUM_SLABS {
      CutInside(blocks, page, SlabSize(bin), PerPage(bin));
      PageSplits(bin);
    }
  }

  lemma HousedMore(blocks: Blocks, blocks': Blocks, used: seq<bool>, s: nat, n: nat)
    requires Housed(blocks, used) && s + n <= |used| && AddedIn(blocks, blocks', PageOf(s), n * PAGE_SIZE)
    ensures Housed(blocks', P.Marked(used, s, n, true))
  {
    var used' := P.Marked(used, s, n, true);
    forall a, f | a in blocks' && 0 <= f < |used'| && !used'[f] ensures Apart(a, blocks'[a], PageOf(f), PAGE_SIZE) {
      assert !used[f] && !(s <= f < s + n);
      if a in blocks && blocks'[a] == blocks[a] { assert Apart(a, blocks[a], PageOf(f), PAGE_SIZE); }
    }
  }

  lemma OwnedMore(live: map<nat, Live>, used: seq<bool>, usable: seq<bool>, s: nat, n: nat)
    requires Owned(live, used, usable) && s + n <= |used|
    ensures Owned(live, P.Marked(used, s, n, true), usable)
  {
    hide P.Marked;
    forall a | a in live && live[a].bin >= NUM_SLABS
      ensures OwnsRun(a, live[a].pages, P.Marked(used, s, n, true), usable)
    {
      assert OwnsRun(a, live[a].pages, used, usable);
    }
  }

  lemma OwnedAdd(live: map<nat, Live>, used: seq<bool>, usable: seq<bool>, a: nat, l: Live)
    requires Owned(live, used, usable) && (l.bin >= NUM_SLABS ==> OwnsRun(a, l.pages, used, usable))
    ensures Owned(live[a := l], used, usable)
  {
    hide OwnsRun;
  }

  lemma RunOwned(used: seq<bool>, usable: seq<bool>, s: nat, n: nat)
    requires P.FreeRun(used, s, n) && |used| == |usable| && forall f :: 0 <= f < |used| ==> used[f] || usable[f]
    ensures OwnsRun(PageOf(s), n, P.Marked(used, s, n, true), usable)
  {
    assert (PageOf(s) - B.DIRECT_MAP_BASE) / PAGE_SIZE == s;
  }

  // ---------------------------------------------------------------- giving frames back

  lemma HousedLess(blocks: Blocks, used: seq<bool>, a: nat, s: nat, n: nat)
    requires Housed(blocks, used) && AllApart(blocks) && s + n <= |used| && a in blocks && a == PageOf(s)
             && blocks[a] == n * PAGE_SIZE
    requires Positive(blocks)
    ensures Housed(blocks - {a}, P.Marked(used, s, n, false))
  {
    var blocks', used' := blocks - {a}, P.Marked(used, s, n, false);
    forall b, f | b in blocks' && 0 <= f < |used'| && !used'[f] ensures Apart(b, blocks'[b], PageOf(f), PAGE_SIZE) {
      if s <= f < s + n { assert Apart(a, blocks[a], b, blocks[b]); } else { assert !used[f] && blocks[b] > 0; }
    }
  }

  lemma OwnedLess(live: map<nat, Live>, blocks: Blocks, used: seq<bool>, usable: seq<bool>, a: nat, s: nat, n: nat)
    requires Owned(live, used, usable) && AllApart(blocks) && a in live && s + n <= |used| && a == PageOf(s) && n > 0
    requires forall b :: b in live ==>
               b in blocks && (live[b].bin >= NUM_SLABS ==> blocks[b] == live[b].pages * PAGE_SIZE)
    requires blocks[a] == n * PAGE_SIZE
    ensures Owned(live - {a}, P.Marked(used, s, n, false), usable)
  {
    hide P.Marked;
    var used' := P.Marked(used, s, n, false);
    forall b | b in live - {a} && live[b].bin >= NUM_SLABS ensures OwnsRun(b, live[b].pages, used', usable) {
      assert OwnsRun(b, live[b].pages, used, usable);
      var t := (b - B.DIRECT_MAP_BASE) / PAGE_SIZE;
      assert Apart(a, blocks[a], b, blocks[b]);
      RunsDisjoint(s, n, t, live[b].pages);
    }
  }

  lemma RunsDisjoint(s: nat, n: nat, t: nat, m: nat)
    requires Apart(PageOf(s), n * PAGE_SIZE, PageOf(t), m * PAGE_SIZE)
    ensures s + n <= t || t + m <= s
  {
  }

  lemma LiveSizes(mem: map<nat, Cell>, blocks: Blocks, heads: seq<nat>, free: seq<seq<nat>>, live: map<nat, Live>)
    requires HeapOk(mem, blocks, heads, free, live)
    ensures forall b :: b in live ==>
              b in blocks
              && (live[b].bin >= NUM_SLABS ==>
                   live[b].bin == DIRECT && live[b].pages > 0 && blocks[b] == live[b].pages * PAGE_SIZE)
  {
    hide ListOk, InSome, Serves;
    forall b | b in live ensures LiveOk(mem, blocks, b, live[b]) { }
  }

  // ---------------------------------------------------------------- the two together

  class KernelMemory {
    const heap: KernelHeap
    const pmm: P.PhysicalMemoryManager

    ghost predicate Valid()
      reads heap, pmm, pmm.bitmap, pmm.tracker
    {
      && heap.Valid() && pmm.Valid() && V.SmallRam(pmm.used, pmm.usable, pmm.totalFrames)
      && Housed(heap.blocks, pmm.used) && Owned(heap.live, pmm.used, pmm.usable)
    }

    constructor (pmm: P.PhysicalMemoryManager)
      requires pmm.Valid() && V.SmallRam(pmm.used, pmm.usable, pmm.totalFrames)
      ensures Valid() && this.pmm == pmm && fresh(heap) && heap.blocks == map[] && heap.live == map[]
    {
      heap := new KernelHeap();
      this.pmm := pmm;
    }

    /** The page allocator cannot serve `n` pages. */
    ghost predicate OutOfPages(n: nat)
      reads pmm
    {
      pmm.freeFrames < n || pmm.forceAllocFailure || (n >= 2 && P.NoRunFound(pmm.used, pmm.lastSearchFrame, n))
    }

    /** `kmalloc`: null exactly for no bytes, or when pages are needed and there are none; frames are taken only
        then, and they are the block's own. */
    method Kmalloc(size: nat) returns (ptr: nat)
      requires Valid() && size < TWO64
      modifies heap, pmm`used, pmm`freeFrames, pmm`allocatedFrames, pmm`lastSearchFrame, pmm.bitmap, pmm.ram
      ensures Valid() && |old(heap.free)| == NUM_SLABS
      ensures ptr == 0 <==> size == 0 || (NeedsPages(old(heap.free), size) && old(OutOfPages(PagesFor(size))))
      ensures ptr == 0 ==>
                heap.live == old(heap.live) && heap.blocks == old(heap.blocks) && pmm.used == old(pmm.used)
                && pmm.ram.frames == old(pmm.ram.frames)
      ensures ptr != 0 ==>
                ptr > HEADER && ptr - HEADER !in old(heap.live)
                && heap.live == old(heap.live)[ptr - HEADER := Entry(size)]
      ensures ptr != 0 ==>
                ptr - HEADER in heap.blocks && (size + HEADER <= heap.blocks[ptr - HEADER] <==> size < TWO64 - HEADER)
      ensures ptr != 0 && !NeedsPages(old(heap.free), size) ==>
                pmm.used == old(pmm.used) && pmm.ram.frames == old(pmm.ram.frames) && heap.blocks == old(heap.blocks)
      ensures ptr != 0 && NeedsPages(old(heap.free), size) ==>
                exists s: nat ::
                  P.FreeRun(old(pmm.used), s, PagesFor(size))
                  && pmm.used == P.Marked(old(pmm.used), s, PagesFor(size), true)
                              && pmm.ram.frames in {old(pmm.ram.frames),
                                   P.Zeroed(old(pmm.ram.frames), s, PagesFor(size))}
                              && HandedOut(old(heap.free), heap.free, old(heap.blocks), heap.blocks, size, PageOf(s),
                                   ptr - HEADER)
    {
      hide HeapOk, Housed, Owned, HandedOut, Granted, P.Marked, SlabBin, Needed, PagesFor;
      AllPositive(heap.mem, heap.blocks, heap.heads, heap.free, heap.live);
      if size == 0 { return 0; }
      var bin := FindSlabBin((size + HEADER) % TWO64);
      if bin < NUM_SLABS { EmptyBin(heap.mem, heap.blocks, heap.heads, heap.free, heap.live, bin); }
      if bin == NUM_SLABS || heap.heads[bin] == 0 {
        ptr := KmallocPages(size);
      } else {
        NothingGranted(heap.blocks, PagesFor(size));
        ptr := heap.Kmalloc(size, 0);
        HandedInside(old(heap.free), heap.free, old(heap.blocks), heap.blocks, size, 0, ptr - HEADER);
        OwnedAdd(old(heap.live), pmm.used, pmm.usable, ptr - HEADER, Entry(size));
      }
    }

    method KmallocPages(size: nat) returns (ptr: nat)
      requires Valid() && 0 < size < TWO64 && |heap.free| == NUM_SLABS && NeedsPages(heap.free, size)
      modifies heap, pmm`used, pmm`freeFrames, pmm`allocatedFrames, pmm`lastSearchFrame, pmm.bitmap, pmm.ram
      ensures Valid()
      ensures ptr == 0 <==> old(OutOfPages(PagesFor(size)))
      ensures ptr == 0 ==>
                heap.live == old(heap.live) && heap.blocks == old(heap.blocks) && pmm.used == old(pmm.used)
                && pmm.ram.frames == old(pmm.ram.frames)
      ensures ptr != 0 ==>
                ptr > HEADER && ptr - HEADER !in old(heap.live)
                && heap.live == old(heap.live)[ptr - HEADER := Entry(size)]
      ensures ptr != 0 ==>
                ptr - HEADER in heap.blocks && (size + HEADER <= heap.blocks[ptr - HEADER] <==> size < TWO64 - HEADER)
      ensures ptr != 0 ==>
                exists s: nat ::
                  P.FreeRun(old(pmm.used), s, PagesFor(size))
                  && pmm.used == P.Marked(old(pmm.used), s, PagesFor(size), true)
                              && pmm.ram.frames in {old(pmm.ram.frames),
                                   P.Zeroed(old(pmm.ram.frames), s, PagesFor(size))}
                              && HandedOut(old(heap.free), heap.free, old(heap.blocks), heap.blocks, size, PageOf(s),
                                   ptr - HEADER)
    {
      hide HeapOk, Housed, Owned, HandedOut, Granted, P.Marked, SlabBin, Needed, PagesFor, NeedsPages;
      var n := PagesFor(size);
      AllPositive(heap.mem, heap.blocks, heap.heads, heap.free, heap.live);
      var pa := pmm.AllocPages(n);
      if pa == 0 { return 0; }
      ghost var s := pa / PAGE_SIZE;
      RunGranted(heap.blocks, old(pmm.used), pmm.usable, pmm.totalFrames, s, n);
      ptr := heap.Kmalloc(size, B.DIRECT_MAP_BASE + pa);
      HandedInside(old(heap.free), heap.free, old(heap.blocks), heap.blocks, size, PageOf(s), ptr - HEADER);
      HousedMore(old(heap.blocks), heap.blocks, old(pmm.used), s, n);
      OwnedMore(old(heap.live), old(pmm.used), pmm.usable, s, n);
      RunOwned(old(pmm.used), pmm.usable, s, n);
      OwnedAdd(old(heap.live), pmm.used, pmm.usable, ptr - HEADER, Entry(size));
    }

    /** `kfree` of a pointer `kmalloc` returned: the frames of a block of whole pages return, all of them and no
        others. */
    method Kfree(ptr: nat)
      requires Valid() && (ptr == 0 || (ptr >= HEADER && ptr - HEADER in heap.blocks))
      modifies heap, pmm`used, pmm`freeFrames, pmm`allocatedFrames, pmm`lastSearchFrame, pmm.bitmap
      ensures Valid()
      ensures ptr != 0 && ptr - HEADER in old(heap.live) ==>
                && heap.live == old(heap.live) - {ptr - HEADER}
                && Returned(old(heap.free), heap.free, old(heap.blocks), heap.blocks, old(heap.live), ptr - HEADER)
      ensures ptr == 0 || ptr - HEADER !in old(heap.live) ==>
                heap.live == old(heap.live) && heap.blocks == old(heap.blocks) && heap.free == old(heap.free)
      ensures if ptr != 0 && ptr - HEADER in old(heap.live) && old(heap.live)[ptr - HEADER].bin >= NUM_SLABS
              then exists s: nat ::
                PageOf(s) == ptr - HEADER && s + old(heap.live)[ptr - HEADER].pages <= |old(pmm.used)|
                                 && pmm.used == P.Marked(old(pmm.used), s, old(heap.live)[ptr - HEADER].pages, false)
              else pmm.used == old(pmm.used)
    {
      hide HeapOk, Housed, Owned, P.Marked, SlabBin, Needed, PagesFor;
      if ptr == 0 { return; }
      var a := ptr - HEADER;
      AllPositive(heap.mem, heap.blocks, heap.heads, heap.free, heap.live);
      LiveSizes(heap.mem, heap.blocks, heap.heads, heap.free, heap.live);
      BlockCell(heap.mem, heap.blocks, heap.heads, heap.free, heap.live, a);
      var cell := heap.mem[a];
      heap.Kfree(ptr);
      if cell.Magic() == MAGIC && !(cell.bin != DIRECT && cell.bin < NUM_SLABS) && cell.pages > 0 {
        OwnsItsRun(old(heap.live), pmm.used, pmm.usable, a);
        ghost var s := (a - B.DIRECT_MAP_BASE) / PAGE_SIZE;
        var ok := pmm.FreePages(a - B.DIRECT_MAP_BASE, cell.pages);
        HousedLess(old(heap.blocks), old(pmm.used), a, s, cell.pages);
        OwnedLess(old(heap.live), old(heap.blocks), old(pmm.used), pmm.usable, a, s, cell.pages);
      } else {
        OwnedWithout(old(heap.live), pmm.used, pmm.usable, heap.live);
      }
    }
  }

  lemma OwnsItsRun(live: map<nat, Live>, used: seq<bool>, usable: seq<bool>, a: nat)
    requires Owned(live, used, usable) && a in live && live[a].bin >= NUM_SLABS
    ensures OwnsRun(a, live[a].pages, used, usable)
  {
  }

  lemma OwnedWithout(live: map<nat, Live>, used: seq<bool>, usable: seq<bool>, live': map<nat, Live>)
    requires Owned(live, used, usable) && forall a :: a in live' ==> a in live && live'[a] == live[a]
    ensures Owned(live', used, usable)
  {
    hide OwnsRun;
  }
}
