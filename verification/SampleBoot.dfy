/** One boot map after which the frame allocator and the reserved-memory tracker disagree, and what comes of it. */
module SampleBoot {
  import opened Machine
  import opened Ram
  import opened Bitmap
  import opened Regions
  import opened Pmm

  /** 15 MiB of RAM above the first, and an empty reserved entry in the middle of the page at 3 MiB. */
  const STRAY_MAP: seq<MmapEntry> := [MmapEntry(0x10_0000, 0xF0_0000, AVAILABLE), MmapEntry(0x30_0800, 0, RESERVED)]

  /** Booted with that map, a kernel at 1 to 2 MiB and the bitmap behind it, the page at 3 MiB is usable to the
      tracker and in use in the bitmap. */
  lemma StrayMapDisagrees(used: seq<bool>, regions: seq<Region>)
    requires |used| == 0x1000 && Overridden(used, regions, STRAY_MAP)
    requires NormalForm(Populated(STRAY_MAP, 0x10_0000, 0x20_0000, 0, 0)
               + [PageSpan(0x20_0000, 512, "PMM Allocation Bitmap")], regions)
    ensures FrameUsable(regions, 0x300) && used[0x300] && !NoStrayUsable(0x1000, regions, STRAY_MAP)
            && !Complement(used, regions)
  {
    var raw := Populated(STRAY_MAP, 0x10_0000, 0x20_0000, 0, 0) + [PageSpan(0x20_0000, 512, "PMM Allocation Bitmap")];
    StrayRaw();
    StrayExact(raw);
    assert Exact(raw, regions);
    assert UsableIn(regions, 0x30_0000);
    var e := STRAY_MAP[1];
    assert e in STRAY_MAP && StrayAt(e, 0x300);
    AgreesExactly(used, regions, STRAY_MAP);
  }

  const STRAY_RAW: seq<Region> := [LOW_MEMORY, KernelImage(0x10_0000, 0x20_0000),
                                   FromEntry(MmapEntry(0x10_0000, 0xF0_0000, AVAILABLE)),
                                   PageSpan(0x20_0000, 512, "PMM Allocation Bitmap")]

  lemma StrayRaw()
    ensures Populated(STRAY_MAP, 0x10_0000, 0x20_0000, 0, 0) + [PageSpan(0x20_0000, 512, "PMM Allocation Bitmap")] ==
              STRAY_RAW
  {
    var acc := Explicit(0x10_0000, 0x20_0000, 0, 0);
    assert STRAY_MAP[..1] == [STRAY_MAP[0]] && STRAY_MAP[..1][..0] == [];
    assert Imported(acc, []) == acc;
    assert Imported(acc, STRAY_MAP[..1]) == acc + [FromEntry(STRAY_MAP[0])];
  }

  lemma StrayExact(raw: seq<Region>)
    requires raw == STRAY_RAW
    ensures CountKind(raw, false) <= 4 && CountKind(raw, true) <= 4
    ensures AvailableAt(raw, 0x30_0000) && !ReservedAt(raw, 0x30_0000)
  {
    CountAtMost(raw, false);
    CountAtMost(raw, true);
    assert raw[2] in raw && Spans(raw[2], 0x30_0000);
  }

  lemma {:induction false} CountAtMost(rs: seq<Region>, available: bool)
    ensures CountKind(rs, available) <= |rs|
  {
    if rs != [] { CountAtMost(rs[..|rs| - 1], available); }
  }

  // ---------------------------------------------------------------- what comes of it

  /** The raw table of that map, before the bitmap is registered. */
  lemma StrayPopulated(regions: seq<Region>)
    requires NormalForm(Populated(STRAY_MAP, 0x10_0000, 0x20_0000, 0, 0), regions)
    ensures forall a: u64 :: 0x20_0000 <= a < 0x20_0200 ==> !ReservedIn(regions, a)
  {
    hide Populated, Spans, PageSpan;
    var raw := Populated(STRAY_MAP, 0x10_0000, 0x20_0000, 0, 0);
    StrayRaw();
    forall a: u64 | 0x20_0000 <= a < 0x20_0200 ensures !ReservedAt(raw, a) {
      forall r | r in raw && r.IsReserved() ensures !Spans(r, a) {
        var i :| 0 <= i < |raw| && raw[i] == r;
        assert r == STRAY_RAW[i];
        BelowTwo(i, a);
      }
    }
  }

  lemma BelowTwo(i: nat, a: u64)
    requires i < 3 && 0x20_0000 <= a < 0x20_0200 && STRAY_RAW[i].IsReserved()
    ensures !Spans(STRAY_RAW[i], a)
  {
    if i == 0 {
      assert Hi(LOW_MEMORY) <= 0x20_0000;
    } else {
      assert i == 1 && Hi(STRAY_RAW[1]) <= 0x20_0000;
    }
  }

  lemma StraySizes()
    ensures MaxUsable(STRAY_MAP) == 0x100_0000 && ManagedLimit(STRAY_MAP) == 0x100_0000
            && BitmapBytes(0x100_0000) == 512
    ensures AlignUp(0x20_0000, PAGE_SIZE) == 0x20_0000 && SaneBoot(STRAY_MAP, 0x10_0000, 0x20_0000, 0, 0)
  {
    assert STRAY_MAP[..1] == [STRAY_MAP[0]] && STRAY_MAP[..1][..0] == [];
    assert MaxUsable([]) == 0;
    assert MaxUsable(STRAY_MAP[..1]) == 0x100_0000;
  }

  /** The bitmap goes right behind the kernel. */
  lemma StrayPlacement(regions: seq<Region>, at: u64)
    requires NormalForm(Populated(STRAY_MAP, 0x10_0000, 0x20_0000, 0, 0), regions)
    ensures !NoneIn(regions, STRAY_MAP, 0x20_0000, 512, 0, 0)
    ensures Placement(regions, STRAY_MAP, 0x20_0000, 512, 0, 0, at) ==> at == 0x20_0000
  {
    hide NormalForm;
    StrayPopulated(regions);
    var lowest: u64 := 0x20_0000;
    assert Holds(regions, STRAY_MAP[0], 0x20_0000, 512, 0, 0, lowest);
    assert STRAY_MAP[0] in STRAY_MAP;
    if Placement(regions, STRAY_MAP, 0x20_0000, 512, 0, 0, at) {
      var i: nat :| i < |STRAY_MAP| && Holds(regions, STRAY_MAP[i], 0x20_0000, 512, 0, 0, at)
                    && NoneBelow(regions, STRAY_MAP[i], 0x20_0000, 512, 0, 0, at)
                       && NoneIn(regions, STRAY_MAP[..i], 0x20_0000, 512, 0, 0);
      assert i == 0;
    }
  }

  /** The page after the stray one is free. */
  lemma StrayNeighbour(used: seq<bool>, regions: seq<Region>)
    requires |used| == 0x1000 && Overridden(used, regions, STRAY_MAP)
    requires NormalForm(Populated(STRAY_MAP, 0x10_0000, 0x20_0000, 0, 0)
               + [PageSpan(0x20_0000, 512, "PMM Allocation Bitmap")], regions)
    ensures !used[0x301]
  {
    var raw := Populated(STRAY_MAP, 0x10_0000, 0x20_0000, 0, 0) + [PageSpan(0x20_0000, 512, "PMM Allocation Bitmap")];
    StrayRaw();
    StrayExact(raw);
    assert Exact(raw, regions);
    assert raw[2] in raw && Spans(raw[2], 0x30_1000);
    assert AvailableAt(raw, 0x30_1000) && !ReservedAt(raw, 0x30_1000);
    assert UsableIn(regions, 0x30_1000);
    assert FrameUsable(regions, 0x301);
  }

  /** Boot with that map, one allocation, and `free_page` of the page at 3 MiB: it succeeds, though the page was
      never handed out, and the counters no longer match the bitmap. */
  method FreesForeignPage(pmm: PhysicalMemoryManager) returns (ok: bool, page: u64, freed: bool)
    requires pmm.tracker.Valid() && pmm.tracker.raw == Populated(STRAY_MAP, 0x10_0000, 0x20_0000, 0, 0)
    modifies pmm, pmm.tracker, pmm.ram
    ensures ok && page != 0 && page != 0x30_0000 && freed
    ensures |pmm.used| == 0x1000 && !pmm.used[0x300] && !pmm.Steady()
  {
    hide NormalForm, Placement, NoneIn, Overridden, PhysicalMemoryManager.Steady, PhysicalMemoryManager.Valid,
         Populated, FrameUsable, NoStrayUsable, Complement;
    StraySizes();
    ghost var regions := pmm.tracker.regions;
    StrayPlacement(regions, 0);
    ok := pmm.Init(STRAY_MAP, 0x10_0000, 0x20_0000, 0, 0);
    ghost var at: u64 :| Placement(regions, STRAY_MAP, 0x20_0000, 512, 0, 0, at)
                         && pmm.tracker.raw ==
                              Populated(STRAY_MAP, 0x10_0000, 0x20_0000, 0, 0)
                                + [PageSpan(at, 512, "PMM Allocation Bitmap")];
    StrayPlacement(regions, at);
    SteadySized(pmm);
    StrayMapDisagrees(pmm.used, pmm.tracker.regions);
    StrayNeighbour(pmm.used, pmm.tracker.regions);
    CountPositiveAt(pmm.used, 0x301);
    ghost var used := pmm.used;
    assert !pmm.usable[0x300];
    page := pmm.AllocPage();
    assert used[0x300] && !used[page / PAGE_SIZE];
    SteadySized(pmm);
    assert pmm.Freeable(0x300);
    assert !pmm.Allocated(0x300);
    freed := pmm.FreePage(0x30_0000);
  }

  lemma SteadySized(pmm: PhysicalMemoryManager)
    requires pmm.Steady()
    ensures |pmm.used| == |pmm.usable| == pmm.totalFrames && pmm.maxManaged == pmm.totalFrames * PAGE_SIZE
            && pmm.initialized
    ensures pmm.freeFrames == Count(pmm.used, false)
  {
  }

  lemma CountPositiveAt(used: seq<bool>, f: nat)
    requires f < |used| && !used[f]
    ensures Count(used, false) > 0
  {
    CountPositive(used, false);
  }
}
