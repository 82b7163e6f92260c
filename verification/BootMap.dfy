/** kernel/memory/pmm.cpp, init, from the loader's memory map to the first free frame, in the map's own terms. */
module BootMap {
  import opened Machine
  import opened Regions
  import opened Pmm

  /** Frame `f` shares a byte with `[start, end)`. */
  predicate Meets(start: int, end: int, f: nat)
  {
    start < end && start < f * 0x1000 + 0x1000 && f * 0x1000 < end
  }

  /** All of frame `f` is in one entry of usable RAM. */
  ghost predicate IsRam(mmap: seq<MmapEntry>, f: nat)
  {
    exists e :: e in mmap && e.kind == 1 && e.base <= f * 0x1000 && f * 0x1000 + 0x1000 <= e.base + e.length
  }

  /** Some entry of another kind has a byte of frame `f`, or is empty and starts inside it. */
  ghost predicate IsFirmware(mmap: seq<MmapEntry>, f: nat)
  {
    exists e :: e in mmap && e.kind != 1 && (Meets(e.base, e.base + e.length, f) || StrayAt(e, f))
  }

  /** The first megabyte, the kernel, the loader's information block or the bitmap has a byte of frame `f`. */
  predicate IsKernel(kernelStart: int, kernelEnd: int, mb2: int, mb2Size: int, at: int, bytes: int, f: nat)
  {
    || Meets(0, 0x10_0000, f) || Meets(kernelStart, kernelEnd, f)
    || (mb2 != 0 && Meets(mb2, mb2 + mb2Size, f)) || Meets(at, at + bytes, f)
  }

  /** What a free frame is. */
  ghost predicate IsFree(mmap: seq<MmapEntry>, kernelStart: int, kernelEnd: int, mb2: int, mb2Size: int, at: int,
                         bytes: int, f: nat)
  {
    IsRam(mmap, f) && !IsFirmware(mmap, f) && !IsKernel(kernelStart, kernelEnd, mb2, mb2Size, at, bytes, f)
  }

  function Raw(mmap: seq<MmapEntry>, kernelStart: u64, kernelEnd: u64, mb2: u64, mb2Size: u64, at: u64, bytes: u64)
    : seq<Region>
  {
    Populated(mmap, kernelStart, kernelEnd, mb2, mb2Size) + [PageSpan(at, bytes, "PMM Allocation Bitmap")]
  }

  lemma SpanTouchesExactly(start: u64, size: u64, name: string, f: nat)
    requires 0 < size && start + size <= PHYSICAL_LIMIT && f * PAGE_SIZE < TWO64
    ensures Touches(PageSpan(start, size, name), f * PAGE_SIZE) <==> Meets(start, start + size, f)
    ensures var r := PageSpan(start, size, name); r.kind != 1 && r.start + r.length <= TWO64 - PAGE_SIZE
  {
    hide AlignUp, PageUpWrapping;
    WrapNotNeeded(start + size);
    SpanRounds(start, size);
    RoundedMeets(start, start + size, f);
  }

  lemma RoundedMeets(start: u64, end: u64, f: nat)
    requires start < end <= PHYSICAL_LIMIT
    ensures Meets(AlignDown(start, PAGE_SIZE), AlignUp(end, PAGE_SIZE), f) <==> Meets(start, end, f)
  {
  }

  /** `reserve_range` marks exactly the frames with a byte in the range. */
  lemma MarksWhatItMeets(start: u64, end: u64, f: nat)
    requires end <= TWO64 - PAGE_SIZE
    ensures InSpan(start, end, f) <==> Meets(start, end, f)
  {
  }

  lemma RegionTouches(r: Region, f: nat)
    requires f * PAGE_SIZE < TWO64
    ensures Touches(r, f * PAGE_SIZE) <==> Meets(r.start, r.start + r.length, f)
    ensures HoldsPage(r, f * PAGE_SIZE) <==>
              r.start <= f * 0x1000 && f * 0x1000 + 0x1000 <= r.start + r.length < TWO64
  {
    assert f * PAGE_SIZE % 0x1000 == 0;
  }

  /** What is in the raw table. */
  lemma RawMembers(mmap: seq<MmapEntry>, kernelStart: u64, kernelEnd: u64, mb2: u64, mb2Size: u64, at: u64,
                   bytes: u64, r: Region)
    requires SaneBoot(mmap, kernelStart, kernelEnd, mb2, mb2Size)
    ensures r in Raw(mmap, kernelStart, kernelEnd, mb2, mb2Size, at, bytes) <==>
              || r == LOW_MEMORY || r == KernelImage(kernelStart, kernelEnd)
              || (mb2 != 0 && mb2Size > 0 && r == PageSpan(mb2, mb2Size, "Multiboot2 Information Block"))
              || r == PageSpan(at, bytes, "PMM Allocation Bitmap")
              || exists e :: e in mmap && e.length != 0 && FromEntry(e) == r
  {
    hide PageSpan, FromEntry, SaneEntry;
    RawTableHolds(mmap, kernelStart, kernelEnd, mb2, mb2Size);
    ImportedMembers(Explicit(kernelStart, kernelEnd, mb2, mb2Size), mmap);
  }

  lemma RawIsSafe(mmap: seq<MmapEntry>, kernelStart: u64, kernelEnd: u64, mb2: u64, mb2Size: u64, at: u64, bytes: u64)
    requires SaneBoot(mmap, kernelStart, kernelEnd, mb2, mb2Size) && 0 < bytes && at + bytes <= PHYSICAL_LIMIT
    ensures forall q :: q in Raw(mmap, kernelStart, kernelEnd, mb2, mb2Size, at, bytes) && q.kind != 1 ==>
              q.start + q.length <= TWO64 - PAGE_SIZE
  {
    hide Raw, PageSpan;
    SpanTouchesExactly(at, bytes, "PMM Allocation Bitmap", 0);
    if mb2Size > 0 { SpanTouchesExactly(mb2, mb2Size, "Multiboot2 Information Block", 0); }
    forall q | q in Raw(mmap, kernelStart, kernelEnd, mb2, mb2Size, at, bytes) && q.kind != 1
      ensures q.start + q.length <= TWO64 - PAGE_SIZE
    {
      RawMembers(mmap, kernelStart, kernelEnd, mb2, mb2Size, at, bytes, q);
    }
  }

  /** A usable entry of the table holds the frame exactly if one of the map does. */
  lemma RamExactly(mmap: seq<MmapEntry>, kernelStart: u64, kernelEnd: u64, mb2: u64, mb2Size: u64, at: u64, bytes: u64,
                   f: nat)
    requires SaneBoot(mmap, kernelStart, kernelEnd, mb2, mb2Size) && f * PAGE_SIZE < TWO64
    ensures (exists r :: r in Raw(mmap, kernelStart, kernelEnd, mb2, mb2Size, at, bytes) && r.kind == 1
                         && HoldsPage(r, f * PAGE_SIZE))
            <==> IsRam(mmap, f)
  {
    hide Raw, HoldsPage;
    var raw := Raw(mmap, kernelStart, kernelEnd, mb2, mb2Size, at, bytes);
    if r :| r in raw && r.kind == 1 && HoldsPage(r, f * PAGE_SIZE) {
      RawMembers(mmap, kernelStart, kernelEnd, mb2, mb2Size, at, bytes, r);
      RegionTouches(r, f);
    }
    if e :| e in mmap && e.kind == 1 && e.base <= f * 0x1000 && f * 0x1000 + 0x1000 <= e.base + e.length {
      RawMembers(mmap, kernelStart, kernelEnd, mb2, mb2Size, at, bytes, FromEntry(e));
      RegionTouches(FromEntry(e), f);
    }
  }

  /** A reservation of the table has a byte of the frame exactly if the kernel or the firmware claims one. */
  lemma ClaimedExactly(mmap: seq<MmapEntry>, kernelStart: u64, kernelEnd: u64, mb2: u64, mb2Size: u64, at: u64,
                       bytes: u64, f: nat)
    requires SaneBoot(mmap, kernelStart, kernelEnd, mb2, mb2Size) && f * PAGE_SIZE < TWO64
    requires 0 < bytes && at + bytes <= PHYSICAL_LIMIT
    ensures (exists q :: q in Raw(mmap, kernelStart, kernelEnd, mb2, mb2Size, at, bytes) && q.kind != 1
                         && Touches(q, f * PAGE_SIZE))
            <==> IsKernel(kernelStart, kernelEnd, mb2, mb2Size, at, bytes, f)
                 || exists e :: e in mmap && e.kind != 1 && Meets(e.base, e.base + e.length, f)
  {
    hide Raw, Touches, PageSpan;
    var raw := Raw(mmap, kernelStart, kernelEnd, mb2, mb2Size, at, bytes);
    SpanTouchesExactly(at, bytes, "PMM Allocation Bitmap", f);
    if mb2Size > 0 { SpanTouchesExactly(mb2, mb2Size, "Multiboot2 Information Block", f); }
    RegionTouches(LOW_MEMORY, f);
    RegionTouches(KernelImage(kernelStart, kernelEnd), f);
    if q :| q in raw && q.kind != 1 && Touches(q, f * PAGE_SIZE) {
      RawMembers(mmap, kernelStart, kernelEnd, mb2, mb2Size, at, bytes, q);
      if e :| e in mmap && e.length != 0 && FromEntry(e) == q { RegionTouches(q, f); }
    }
    if e :| e in mmap && e.kind != 1 && Meets(e.base, e.base + e.length, f) {
      RawMembers(mmap, kernelStart, kernelEnd, mb2, mb2Size, at, bytes, FromEntry(e));
      RegionTouches(FromEntry(e), f);
    }
    RawMembers(mmap, kernelStart, kernelEnd, mb2, mb2Size, at, bytes, LOW_MEMORY);
    RawMembers(mmap, kernelStart, kernelEnd, mb2, mb2Size, at, bytes, KernelImage(kernelStart, kernelEnd));
    RawMembers(mmap, kernelStart, kernelEnd, mb2, mb2Size, at, bytes, PageSpan(at, bytes, "PMM Allocation Bitmap"));
    RawMembers(mmap, kernelStart, kernelEnd, mb2, mb2Size, at, bytes,
      PageSpan(mb2, mb2Size, "Multiboot2 Information Block"));
  }

  /** After `init` a free frame lies whole in usable RAM and nobody claims a byte of it; and while the tracker has room
      for every piece, every such frame is free. */
  lemma FreeExactly(mmap: seq<MmapEntry>, kernelStart: u64, kernelEnd: u64, mb2: u64, mb2Size: u64, at: u64, bytes: u64,
                    regions: seq<Region>, used: seq<bool>, f: nat)
    requires SaneBoot(mmap, kernelStart, kernelEnd, mb2, mb2Size) && 0 < bytes && at + bytes <= PHYSICAL_LIMIT
    requires NormalForm(Raw(mmap, kernelStart, kernelEnd, mb2, mb2Size, at, bytes), regions)
    requires Overridden(used, regions, mmap) && f < |used|
    ensures !used[f] ==> IsFree(mmap, kernelStart, kernelEnd, mb2, mb2Size, at, bytes, f)
    ensures Exact(Raw(mmap, kernelStart, kernelEnd, mb2, mb2Size, at, bytes), regions) ==>
              (!used[f] <==> IsFree(mmap, kernelStart, kernelEnd, mb2, mb2Size, at, bytes, f))
  {
    hide Raw, NormalForm, Exact, Touches, HoldsPage, SaneBoot, UsableIn, IsRam, Meets;
    var raw, a := Raw(mmap, kernelStart, kernelEnd, mb2, mb2Size, at, bytes), f * PAGE_SIZE;
    RawIsSafe(mmap, kernelStart, kernelEnd, mb2, mb2Size, at, bytes);
    RamExactly(mmap, kernelStart, kernelEnd, mb2, mb2Size, at, bytes, f);
    ClaimedExactly(mmap, kernelStart, kernelEnd, mb2, mb2Size, at, bytes, f);
    if !used[f] {
      UsableIsRam(raw, regions, a);
      forall q | q in raw && q.kind != 1 ensures !Touches(q, a) {
        if Touches(q, a) { ReservationWins(raw, regions, q, a); }
      }
    }
    if Exact(raw, regions) { UsableExactly(raw, regions, a); }
  }

  /** `init` on a populated tracker. The bitmap of one bit a frame is at `at`. */
  method Boot(pmm: PhysicalMemoryManager, mmap: seq<MmapEntry>, kernelStart: u64, kernelEnd: u64, mb2: u64,
              mb2Size: u64)
    returns (ok: bool, ghost at: u64)
    requires SaneBoot(mmap, kernelStart, kernelEnd, mb2, mb2Size)
    modifies pmm, pmm.tracker
    ensures ok ==> pmm.Steady() && forall f: nat :: IsRam(mmap, f) ==> f < |pmm.used|
    ensures ok ==>
              forall f: nat :: f < |pmm.used| && !pmm.used[f] ==>
                IsFree(mmap, kernelStart, kernelEnd, mb2, mb2Size, at, |pmm.used| / 8, f)
    ensures ok && |pmm.tracker.regions| < 128 ==>
              forall f: nat :: f < |pmm.used| ==>
                (!pmm.used[f] <==> IsFree(mmap, kernelStart, kernelEnd, mb2, mb2Size, at, |pmm.used| / 8, f))
  {
    hide PhysicalMemoryManager.Steady, PhysicalMemoryManager.Valid, NormalForm, Exact, Overridden, IsFree, IsRam,
         Complement, NoStrayUsable, NoneIn, Placement, Populated;
    at := 0;
    pmm.tracker.Populate(mmap, kernelStart, kernelEnd, mb2, mb2Size);
    ghost var regions := pmm.tracker.regions;
    ok := pmm.Init(mmap, kernelStart, kernelEnd, mb2, mb2Size);
    if ok {
      ghost var bytes := BitmapBytes(ManagedLimit(mmap));
      at :| Placement(regions, mmap, AlignUp(kernelEnd, PAGE_SIZE), bytes, mb2, mb2Size, at)
            && pmm.tracker.raw == Raw(mmap, kernelStart, kernelEnd, mb2, mb2Size, at, bytes);
      Managed(pmm, mmap);
      PlacedBelow(regions, mmap, kernelStart, kernelEnd, bytes, mb2, mb2Size, at);
      forall f: nat | f < |pmm.used|
        ensures !pmm.used[f] ==> IsFree(mmap, kernelStart, kernelEnd, mb2, mb2Size, at, bytes, f)
        ensures |pmm.tracker.regions| < 128 ==>
                  (!pmm.used[f] <==> IsFree(mmap, kernelStart, kernelEnd, mb2, mb2Size, at, bytes, f))
      {
        NotFullIsExact(pmm.tracker);
        FreeExactly(mmap, kernelStart, kernelEnd, mb2, mb2Size, at, bytes, pmm.tracker.regions, pmm.used, f);
      }
    }
  }

  lemma NotFullIsExact(tracker: ReservedMemoryTracker)
    requires tracker.Valid()
    ensures NormalForm(tracker.raw, tracker.regions)
    ensures |tracker.regions| < 128 ==> Exact(tracker.raw, tracker.regions)
  {
    hide Exact;
  }

  lemma PlacedBelow(regions: seq<Region>, mmap: seq<MmapEntry>, kernelStart: u64, kernelEnd: u64, bytes: u64, mb2: u64,
                    mb2Size: u64, at: u64)
    requires SaneBoot(mmap, kernelStart, kernelEnd, mb2, mb2Size)
    requires Placement(regions, mmap, AlignUp(kernelEnd, PAGE_SIZE), bytes, mb2, mb2Size, at)
    ensures at + bytes <= PHYSICAL_LIMIT
  {
    hide AlignUp, NoneBelow, NoneIn, ReservedIn;
    var i: nat :| i < |mmap| && Holds(regions, mmap[i], AlignUp(kernelEnd, PAGE_SIZE), bytes, mb2, mb2Size, at);
    assert mmap[i] in mmap;
  }

  /** One bit for each frame below the highest usable address. */
  lemma Managed(pmm: PhysicalMemoryManager, mmap: seq<MmapEntry>)
    requires pmm.Steady() && pmm.maxManaged == ManagedLimit(mmap) && MaxUsable(mmap) > 0
    requires forall e :: e in mmap ==> SaneEntry(e)
    ensures BitmapBytes(ManagedLimit(mmap)) == |pmm.used| / 8 > 0
    ensures forall f: nat :: IsRam(mmap, f) ==> f < |pmm.used|
  {
    MaxUsableBound(mmap);
    ManagedGeometry(MaxUsable(mmap));
    MaxUsableIsBound(mmap);
  }

  lemma {:induction false} MaxUsableIsBound(mmap: seq<MmapEntry>)
    requires forall e :: e in mmap ==> SaneEntry(e)
    ensures forall e :: e in mmap && e.kind == 1 ==> e.base + e.length <= MaxUsable(mmap)
  {
    if mmap != [] {
      var init, last := mmap[..|mmap|-1], mmap[|mmap|-1];
      assert mmap == init + [last];
      MaxUsableIsBound(init);
    }
  }
}
