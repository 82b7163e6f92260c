/** kernel/userland/elf_loader.cpp, load, as a whole: what a loaded program sees, and what unloading gives back. */
module Programs {
  import opened Machine
  import opened PagingTypes
  import opened Ram
  import opened LittleEndian
  import opened Pmm
  import opened PageTables
  import opened Ownership
  import opened Vmm
  import opened AddressSpaces
  import opened UserMemory
  import opened Elf
  import opened ElfFormat
  import opened Bitmap
  import opened LoadCost
  import opened LoadOrder
  import opened Loader

  datatype Buffer = NoBuffer | Buffer(bytes: seq<Byte>)

  datatype LoadResult = LoadResult(status: ElfLoadStatus, entry: u64, stackTop: u64, pages: nat)

  /** The frames of the target address space are the address space's own. */
  ghost predicate Owning(vmm: VirtualMemoryManager, pml4: u64)
    reads vmm, vmm.ram
  {
    vmm.RootFrame(pml4) != vmm.root / PAGE_SIZE && LeavesOwned(vmm.ram.frames, vmm.forest, vmm.RootFrame(pml4))
  }

  predicate Ended(status: ElfLoadStatus)
  {
    status in {Loaded, AllocationFailed, MappingFailed}
  }

  /** How an accepted file fared: loaded with every page it wants, none wanted twice; or stopped at the first page that
      found no frame, no room for its tables, or its place taken. */
  ghost predicate Decided(status: ElfLoadStatus, a: View, r: nat, pages: set<u64>, file: seq<Byte>, forced: bool)
    requires |file| < TWO64
  {
    && ValidateHeader(file) == Loaded
    && (status == Loaded ==> !Clash(file) && pages == AllPages(file))
    && (status != Loaded && !forced ==> Stopped(status, a, r, pages, file))
  }

  /** `load`: the verdict on the file, then the segments, then the stack. Whatever the outcome, exactly the pages of
      `img` appeared, in the lower half of the target only. An accepted file fails only when memory runs out or a
      page it wants is taken. */
  method Load(vmm: VirtualMemoryManager, data: Buffer, pml4: u64)
    returns (res: LoadResult, ghost img: Image, ghost leak: nat)
    requires vmm.Valid() && IsTable(vmm.forest, vmm.RootFrame(pml4), 4) && (data.Buffer? ==> |data.bytes| < TWO64)
    modifies vmm`forest, vmm.ram, vmm.pmm.bitmap, vmm.pmm`used, vmm.pmm`freeFrames, vmm.pmm`allocatedFrames,
             vmm.pmm`lastSearchFrame
    ensures Progress(vmm, pml4, old(vmm.Now()), img, old(Owning(vmm, pml4)), res.status, leak)
    ensures data.NoBuffer? ==> res.status == NullPointer && vmm.Now() == old(vmm.Now())
    ensures data.Buffer? ==>
              exists v :: Verdict(data.bytes, v)
                       && (v != Loaded ==> res.status == v && vmm.Now() == old(vmm.Now()))
                       && (v == Loaded ==> Ended(res.status))
                       && (v == Loaded ==>
                            Decided(res.status, old(vmm.Now()), vmm.RootFrame(pml4), img.Keys, data.bytes,
                              vmm.pmm.forceAllocFailure))
    ensures res.status == Loaded ==> Complete(img, data.bytes) && Verdict(data.bytes, Loaded)
    ensures res.status == Loaded ==> res == LoadResult(Loaded, Entry(data.bytes), USER_STACK_TOP, |img|)
  {
    hide Stopped, Clash, AllPages, Progress, Verdict, Complete, ValidateHeader, PhNum, U64;
    ghost var a, own := vmm.Now(), Owning(vmm, pml4);
    img, leak := map[], 0;
    StartsEmpty(vmm, pml4);
    res := LoadResult(NullPointer, 0, 0, 0);
    ProgressAnyStatus(vmm, pml4, a, own, NullPointer);
    if data.NoBuffer? { return; }
    var status := ValidateSegments(data.bytes);
    ProgressAnyStatus(vmm, pml4, a, own, status);
    if status != Loaded {
      VerdictNotLate(data.bytes, status);
      return LoadResult(status, 0, 0, 0), map[], 0;
    }
    var pages;
    status, pages, img, leak := PlaceAll(vmm, pml4, data.bytes, a, own);
    res := LoadResult(status, 0, 0, 0);
    if status == Loaded {
      HeaderLong(data.bytes);
      res := LoadResult(Loaded, Entry(data.bytes), USER_STACK_TOP, pages);
    }
  }

  /** The segments of an accepted file, then its stack. */
  method PlaceAll(vmm: VirtualMemoryManager, pml4: u64, file: seq<Byte>, ghost a: View, ghost own: bool)
    returns (status: ElfLoadStatus, pages: nat, ghost img: Image, ghost leak: nat)
    requires |file| < TWO64 && Verdict(file, Loaded) && Progress(vmm, pml4, a, map[], own, Loaded, 0)
    modifies vmm`forest, vmm.ram, vmm.pmm.bitmap, vmm.pmm`used, vmm.pmm`freeFrames, vmm.pmm`allocatedFrames,
             vmm.pmm`lastSearchFrame
    ensures Progress(vmm, pml4, a, img, own, status, leak) && Ended(status)
    ensures Decided(status, a, vmm.RootFrame(pml4), img.Keys, file, vmm.pmm.forceAllocFailure)
    ensures status == Loaded ==> Complete(img, file) && pages == |img|
  {
    hide Clean, Earlier, AllPages, Clash, Stopped, Stuck, StackUpTo, Progress, Verdict, Complete, HasSegments, OnlyFrom,
         HasStack, ValidateHeader, PhNum, Extended, StackPage;
    status, pages, img, leak := LoadSegments(vmm, pml4, file, a, own);
    if status != Loaded { return; }
    ghost var segments := img;
    ProgressAnyLeak(vmm, pml4, a, img, own, leak, 0);
    status, pages, img, leak := LoadStack(vmm, pml4, pages, a, img, own);
    if status != Loaded {
      if !vmm.pmm.forceAllocFailure {
        ghost var va: u64 :| StackPage(va, USER_STACK_PAGES) && StackUpTo(segments, img, va)
                             && Stuck(status, a, vmm.RootFrame(pml4), img.Keys, va);
        StackStopped(status, a, vmm.RootFrame(pml4), segments, img, file, va);
      }
      return;
    }
    Completed(segments, img, file);
    StackCounted(segments, img, file);
  }

  lemma HeaderLong(file: seq<Byte>)
    requires |file| < TWO64 && ValidateHeader(file) == Loaded
    ensures HEADER_SIZE <= |file|
  {
  }

  lemma StartsEmpty(vmm: VirtualMemoryManager, pml4: u64)
    requires vmm.Valid() && IsTable(vmm.forest, vmm.RootFrame(pml4), 4)
    ensures Progress(vmm, pml4, vmm.Now(), map[], Owning(vmm, pml4), Loaded, 0)
  {
    hide PhysicalMemoryManager.Valid, Sound, LeavesOwned, Held, OwnersElsewhere, Placed, GrewOnlyUnder, Built, Cost,
         Count;
    BuiltNothing(vmm.ram.frames, vmm.RootFrame(pml4));
    ghost var none: Image := map[];
    assert none.Keys == {};
    FreeCount(vmm.pmm);
    PlacedNothing(vmm.Now(), vmm.RootFrame(pml4));
    GrewNothing(vmm.Now(), vmm.RootFrame(pml4));
  }

  lemma ProgressAnyStatus(vmm: VirtualMemoryManager, pml4: u64, a: View, own: bool, status: ElfLoadStatus)
    requires Progress(vmm, pml4, a, map[], own, Loaded, 0)
    ensures status != MappingFailed ==> Progress(vmm, pml4, a, map[], own, status, 0)
  {
    hide Placed, Accounted, Leaks, Paid;
  }

  /** Validation never answers with one of the two late failures. */
  lemma VerdictNotLate(file: seq<Byte>, status: ElfLoadStatus)
    requires |file| < TWO64 && Verdict(file, status)
    ensures status != MappingFailed && status != AllocationFailed
  {
    hide HalfAt, WordAt, U64, SegmentAt;
  }

  lemma Completed(img: Image, img': Image, file: seq<Byte>)
    requires |file| < TWO64 && ValidateHeader(file) == Loaded && HasSegments(img, file, PhNum(file))
             && OnlyFrom(img, file, PhNum(file), 0)
    requires Extended(img, img') && HasStack(img', USER_STACK_PAGES)
    requires forall va :: va in img' ==> va in img || StackPage(va, USER_STACK_PAGES)
    ensures Complete(img', file)
  {
    hide ValidateHeader, FromSegment, PhNum, HasSegments, HasStack;
    SegmentsGrow(img, img', file, PhNum(file));
  }

  // ---------------------------------------------------------------- what was loaded

  /** Every byte of a loaded segment reads back as the file's byte, or zero past the file-backed part, and carries the
      segment's own rights at every level of its path. */
  lemma SegmentReadsBack(a: View, b: View, r: nat, img: Image, file: seq<Byte>, i: nat, x: u64)
    requires Placed(a, b, r, img) && Complete(img, file) && Sound(b.mem, b.forest) && IsTable(b.forest, r, 4)
    requires i < PhNum(file) && Ph(file, i).Load() && Ph(file, i).vaddr <= x < Ph(file, i).vaddr + Ph(file, i).memsz
    ensures Fits(Ph(file, i), |file|)
    ensures var s := Ph(file, i);
            && ByteAt(b.mem, r, x) == SegmentByte(file, s, x)
            && PathRights(b.mem, r, PathOf(x)) == Rights(true, s.Writable(), s.Executable())
  {
    hide Sound, PathRights, ValidateHeader, Walk, U64, WordAt, HalfAt, SegmentAt;
    var s := Ph(file, i);
    assert HasSegment(img, file, s);
    BytesBack(a, b, r, img, file, s, x);
    TopIndex(x);
    LeafFlagsAreRights(b.mem, b.forest, r, PathOf(x));
  }

  /** The same in the file's own bytes. */
  lemma FileReadsBack(a: View, b: View, r: nat, img: Image, file: seq<Byte>, i: nat, x: u64)
    requires Placed(a, b, r, img) && Complete(img, file) && Sound(b.mem, b.forest) && IsTable(b.forest, r, 4)
    requires Loadable(file, i) && Address(file, i) <= x < Address(file, i) + MemorySize(file, i)
    ensures FileOffset(file, i) + FileSize(file, i) <= |file|
    ensures ByteAt(b.mem, r, x) ==
              if x - Address(file, i) < FileSize(file, i) then file[FileOffset(file, i) + (x - Address(file, i))] else 0
    ensures var rights, flags: int := PathRights(b.mem, r, PathOf(x)), file[At(file, i) + 4];
            rights.user && (rights.writable <==> flags / 2 % 2 == 1) && (rights.executable <==> flags % 2 == 1)
  {
    hide Sound, PathRights, Placed, ValidateHeader, Walk, PathOf, Number, Ph, PhNum, HasSegments, HasStack, OnlyFrom;
    HeaderInside(file);
    HeaderRead(file);
    NotLoadable(file);
    LoadableIsLoad(file, i);
    ProgramHeaderRead(file, i);
    SegmentReadsBack(a, b, r, img, file, i, x);
  }

  lemma BytesBack(a: View, b: View, r: nat, img: Image, file: seq<Byte>, s: Segment, x: u64)
    requires Placed(a, b, r, img) && HasSegment(img, file, s) && s.vaddr <= x < s.vaddr + s.memsz
    ensures Walk(b.mem, r, PathOf(x)).Small? && Walk(b.mem, r, PathOf(x)).flags == SegmentFlags(s)
    ensures ByteAt(b.mem, r, x) == SegmentByte(file, s, x)
  {
    hide Walk, PathOf, SegmentFlags, SegmentByte, InSegment, PageBase, PageContents, Placed, Backed;
    SamePage(x);
    var va := PageBase(x);
    PageOfSegment(s, |file|, x);
    PlacedBacked(a, b, r, img, va);
    BackedByte(b, r, va, file, s, x);
  }

  lemma PlacedBacked(a: View, b: View, r: nat, img: Image, va: u64)
    requires Placed(a, b, r, img) && va in img
    ensures Backed(b, r, va, img[va])
  {
    hide Backed, OnlyImage, Kept, Walk, PathOf;
  }

  lemma PageOfSegment(s: Segment, size: nat, x: u64)
    requires Fits(s, size) && s.vaddr <= x < s.vaddr + s.memsz
    ensures InSegment(s, PageBase(x)) && PageBase(x) < LOWER_HALF
  {
  }

  lemma BackedByte(b: View, r: nat, va: u64, file: seq<Byte>, s: Segment, x: u64)
    requires Fits(s, |file|) && va == PageBase(x) && PathOf(va) == PathOf(x)
    requires Backed(b, r, va, PageImage(SegmentFlags(s), PageContents(file, s, va)))
    ensures Walk(b.mem, r, PathOf(x)).Small? && Walk(b.mem, r, PathOf(x)).flags == SegmentFlags(s)
    ensures ByteAt(b.mem, r, x) == SegmentByte(file, s, x)
  {
    hide Walk, PathOf, SegmentFlags, SegmentByte;
    assert x % PAGE_SIZE == x - va;
  }

  /** The entry point is on an executable user page. */
  lemma EntryIsExecutable(a: View, b: View, r: nat, img: Image, file: seq<Byte>)
    requires Placed(a, b, r, img) && Complete(img, file) && Verdict(file, Loaded) && Sound(b.mem, b.forest)
             && IsTable(b.forest, r, 4)
    ensures 64 <= |file| && Entry(file) == Number(file[24..32]) && Walk(b.mem, r, PathOf(Entry(file))) != Unmapped
    ensures var rights := PathRights(b.mem, r, PathOf(Entry(file))); rights.user && rights.executable
  {
    hide Sound, PathRights, Verdict, U64, WordAt, HalfAt, SegmentAt, PathOf, Walk, Placed, HasSegment, OnlyFrom,
         HasStack;
    AcceptedFits(file);
    HeaderInside(file);
    HeaderRead(file);
    var i :| 0 <= i < PhNum(file) && EntryIn(file, i);
    SegmentReadsBack(a, b, r, img, file, i, Entry(file));
    BytesBack(a, b, r, img, file, Ph(file, i), Entry(file));
  }

  /** The stack pages are zeroed, writable and not executable. */
  lemma StackReadsBack(a: View, b: View, r: nat, img: Image, file: seq<Byte>, x: u64)
    requires Placed(a, b, r, img) && Complete(img, file) && Sound(b.mem, b.forest) && IsTable(b.forest, r, 4)
    requires 0x7FFF_FFFF_A000 <= x < 0x7FFF_FFFF_E000
    ensures ByteAt(b.mem, r, x) == 0 && PathRights(b.mem, r, PathOf(x)) == Rights(true, true, false)
  {
    hide Sound, PathRights, HasSegments, OnlyFrom, Walk;
    SamePage(x);
    var va := PageBase(x);
    assert StackPage(va, USER_STACK_PAGES);
    assert Backed(b, r, va, img[va]);
    TopIndex(x);
    LeafFlagsAreRights(b.mem, b.forest, r, PathOf(x));
  }

  /** The pages of a loaded file: those its segments' memory begins or continues in, and the four of the stack. */
  lemma ImageExactly(img: Image, file: seq<Byte>, va: u64)
    requires Complete(img, file) && forall x :: x in img ==> x < LOWER_HALF
    ensures va in img <==>
              && va % 0x1000 == 0
              && ((0x7FFF_FFFF_A000 <= va < 0x7FFF_FFFF_E000)
                  || exists i: nat :: Loadable(file, i)
                       && Address(file, i) - Address(file, i) % 0x1000 <= va < Address(file, i) + MemorySize(file, i))
  {
    hide ValidateHeader, Number, Ph, PhNum, SegmentFlags, PageContents;
    HeaderInside(file);
    HeaderRead(file);
    NotLoadable(file);
    if FromSegment(file, PhNum(file), va) {
      var i :| 0 <= i < PhNum(file) && Ph(file, i).Load() && InSegment(Ph(file, i), va);
      LoadableIsLoad(file, i);
      assert HasSegment(img, file, Ph(file, i));
    }
    if i: nat :| Loadable(file, i) && va % 0x1000 == 0
                 && Address(file, i) - Address(file, i) % 0x1000 <= va < Address(file, i) + MemorySize(file, i) {
      LoadableIsLoad(file, i);
      assert FromSegment(file, PhNum(file), va);
      assert HasSegment(img, file, Ph(file, i));
      BelowHalf(Ph(file, i), |file|, va);
    }
  }

  /** The page below the stack stays unmapped exactly when it was unmapped and no segment claims it: the loader
      itself does not keep segments off it. */
  lemma GuardPageExactly(a: View, b: View, r: nat, img: Image, file: seq<Byte>)
    requires Placed(a, b, r, img) && Complete(img, file) && IsTable(a.forest, r, 4)
    ensures USER_STACK_GUARD == 0x7FFF_FFFF_9000
    ensures Walk(b.mem, r, PathOf(USER_STACK_GUARD)) == Unmapped <==>
              Walk(a.mem, r, PathOf(USER_STACK_GUARD)) == Unmapped && !FromSegment(file, PhNum(file), USER_STACK_GUARD)
  {
    hide Walk, PathOf, ValidateHeader, Ph, PhNum, InSegment, StackPage, OnlyFrom;
    var g: u64 := USER_STACK_GUARD;
    if FromSegment(file, PhNum(file), g) {
      var i :| 0 <= i < PhNum(file) && Ph(file, i).Load() && InSegment(Ph(file, i), g);
      assert HasSegment(img, file, Ph(file, i));
      assert Backed(b, r, g, img[g]);
    } else {
      GuardUncovered(img, file);
    }
  }

  lemma GuardUncovered(img: Image, file: seq<Byte>)
    requires Complete(img, file) && !FromSegment(file, PhNum(file), USER_STACK_GUARD)
    requires forall va :: va in img ==> va < LOWER_HALF && va % PAGE_SIZE == 0
    ensures !Loader.Covers(img, PathOf(USER_STACK_GUARD))
  {
    hide PathOf, ValidateHeader, FromSegment, HasSegments, HasStack;
    var g: u64 := USER_STACK_GUARD;
    assert g !in img;
    forall va | va in img ensures PathOf(va) != PathOf(g) {
      if PathOf(va) == PathOf(g) { PathIdentifiesPage(va, g); }
    }
    NotCovered(img, g);
  }

  // ---------------------------------------------------------------- unloading

  /** The number of free frames and the pages wanted settle the outcome. */
  ghost predicate Settled(status: ElfLoadStatus, file: seq<Byte>, free: nat)
    requires |file| < TWO64
  {
    && ValidateHeader(file) == Loaded
    && (status == Loaded <==> Fine(file, free))
    && (status == AllocationFailed <==> Short(file, free))
    && (status == MappingFailed <==> Blocked(file, free))
  }

  /** Create, load, destroy: every frame returns, unless a page could not be mapped; then exactly one frame, allocated
      for that page, is lost. The outcome follows from the file and the number of free frames alone: an accepted file is
      loaded exactly when it wants no page twice and there are frames for a root, its pages and their tables; the frame
      is lost exactly when a page gets one and is wanted again or lacks frames for its tables. Every root there was
      translates as it did. */
  method LoadThenDestroy(vmm: VirtualMemoryManager, data: Buffer) returns (status: ElfLoadStatus, ghost lost: nat)
    requires vmm.Valid() && (data.Buffer? ==> |data.bytes| < TWO64)
    modifies vmm`forest, vmm.ram, vmm.pmm.bitmap, vmm.pmm`used, vmm.pmm`freeFrames, vmm.pmm`allocatedFrames,
             vmm.pmm`lastSearchFrame
    ensures vmm.Valid() && vmm.forest == old(vmm.forest)
            && SameWalks(old(vmm.ram.frames), vmm.ram.frames, old(vmm.forest))
    ensures status != MappingFailed ==> vmm.pmm.used == old(vmm.pmm.used)
    ensures status == MappingFailed ==>
              lost < |old(vmm.pmm.used)| && !old(vmm.pmm.used)[lost] && vmm.pmm.used == old(vmm.pmm.used)[lost := true]
    ensures data.Buffer? && !vmm.pmm.forceAllocFailure && Verdict(data.bytes, Loaded) ==>
              Settled(status, data.bytes, old(vmm.pmm.freeFrames))
  {
    hide Progress, SmallRam, InRam, OnlyWithin, Without, Cleared, Decided, Ended, Bare, Settled, Paid, UserRootEntries,
         Count, SameWalks, SameElsewhere, Walk, PhysicalMemoryManager.Valid, Sound, LeavesOwned, GrewOnlyUnder, Held,
         OwnersElsewhere, FreshSpace, Below, Placed, Complete, Verdict;
    ghost var a := vmm.Now();
    var pml4 := vmm.CreateUserAddressSpace();
    lost := 0;
    SameWalksSelf(a.mem, a.forest);
    if pml4 == 0 {
      if data.Buffer? && Verdict(data.bytes, Loaded) && !vmm.pmm.forceAllocFailure { NoRoot(data.bytes); }
      return AllocationFailed, 0;
    }
    ghost var r, b := pml4 / PAGE_SIZE, vmm.Now();
    RootIsEmpty(a.mem, b.mem, a.forest, vmm.root / PAGE_SIZE, r);
    GrewRoot(a, b.mem, r);
    ghost var img;
    status, img, lost := LoadFresh(vmm, data, pml4);
    Unload(vmm, pml4, a, b, img, status, lost);
  }

  /** Loading into an address space just created. */
  method LoadFresh(vmm: VirtualMemoryManager, data: Buffer, pml4: u64)
    returns (status: ElfLoadStatus, ghost img: Image, ghost lost: nat)
    requires vmm.Valid() && IsTable(vmm.forest, vmm.RootFrame(pml4), 4) && (data.Buffer? ==> |data.bytes| < TWO64)
    requires Bare(vmm.ram.frames, vmm.RootFrame(pml4))
    modifies vmm`forest, vmm.ram, vmm.pmm.bitmap, vmm.pmm`used, vmm.pmm`freeFrames, vmm.pmm`allocatedFrames,
             vmm.pmm`lastSearchFrame
    ensures Progress(vmm, pml4, old(vmm.Now()), img, old(Owning(vmm, pml4)), status, lost)
    ensures data.Buffer? && !vmm.pmm.forceAllocFailure && Verdict(data.bytes, Loaded) ==>
              Settled(status, data.bytes, old(vmm.pmm.freeFrames) + 1)
  {
    hide Progress, Decided, Ended, Bare, Settled, Count, PhysicalMemoryManager.Valid, Sound, Held, OwnersElsewhere,
         LeavesOwned, Complete, Verdict;
    ghost var a, own := vmm.Now(), Owning(vmm, pml4);
    FreeCount(vmm.pmm);
    var res;
    res, img, lost := Load(vmm, data, pml4);
    status := res.status;
    if data.Buffer? && !vmm.pmm.forceAllocFailure && Verdict(data.bytes, Loaded) {
      ghost var r := vmm.RootFrame(pml4);
      ghost var v :| Verdict(data.bytes, v)
                     && (v == Loaded ==> Ended(status) && Decided(status, a, r, img.Keys, data.bytes, false));
      Settle(vmm, pml4, a, img, own, status, lost, data.bytes, v);
    }
  }

  /** Destroying the space a file was loaded into. */
  method Unload(vmm: VirtualMemoryManager, pml4: u64, ghost a: View, ghost b: View, ghost img: Image,
                ghost status: ElfLoadStatus, ghost lost: nat)
    requires Progress(vmm, pml4, b, img, true, status, lost) && pml4 != 0 && PageAligned(pml4)
    requires var r := pml4 / PAGE_SIZE;
             Sound(a.mem, a.forest) && r !in a.forest && FreshSpace(a.mem, b.mem, a.forest, vmm.root / PAGE_SIZE, r)
             && GrewOnlyUnder(a, b, r)
    requires |b.used| == |a.used| && forall f :: 0 <= f < |a.used| && a.used[f] ==> b.used[f]
    modifies vmm`forest, vmm.ram, vmm.pmm.bitmap, vmm.pmm`used, vmm.pmm`freeFrames, vmm.pmm`allocatedFrames,
             vmm.pmm`lastSearchFrame
    ensures vmm.Valid() && vmm.forest == a.forest && SameWalks(a.mem, vmm.ram.frames, a.forest)
    ensures status != MappingFailed ==> vmm.pmm.used == a.used
    ensures status == MappingFailed ==> lost < |a.used| && !a.used[lost] && vmm.pmm.used == a.used[lost := true]
  {
    hide SmallRam, InRam, OnlyWithin, Without, Cleared, SameWalks, SameElsewhere, Walk, PhysicalMemoryManager.Valid,
         Sound, LeavesOwned, GrewOnlyUnder, Held, OwnersElsewhere, FreshSpace, Below, Placed;
    ghost var c, r := vmm.Now(), pml4 / PAGE_SIZE;
    ghost var c' := if status == MappingFailed then View(c.mem, c.forest, c.used[lost := false]) else c;
    AfterLoad(a, b, c, c', vmm.root / PAGE_SIZE, r, img);
    vmm.DestroyUserAddressSpace(pml4);
    AfterDestroy(a, c', vmm.ram.frames, r);
    if status == MappingFailed { LostOne(a, c, r, lost); }
  }

  lemma VerdictUnique(file: seq<Byte>, v: ElfLoadStatus)
    requires |file| < TWO64 && Verdict(file, Loaded) && Verdict(file, v)
    ensures v == Loaded
  {
    hide HalfAt, WordAt, U64, SegmentAt, ValidateHeader;
    AcceptedFits(file);
  }

  /** A new root has no table below it in the lower half. */
  ghost predicate Bare(mem: Memory, r: nat)
  {
    forall va: u64 {:trigger PathOf(va)} :: va < LOWER_HALF ==>
      Depth(mem, r, PathOf(va)) == 0 && Walk(mem, r, PathOf(va)) == Unmapped
  }

  lemma RootIsEmpty(mem: Memory, mem': Memory, forest: Forest, k: nat, r: nat)
    requires FreshSpace(mem, mem', forest, k, r) && UserRootEntries(mem, mem', k, r)
    ensures Bare(mem', r)
  {
    hide Walk, PathOf;
    forall va: u64 | va < LOWER_HALF ensures Depth(mem', r, PathOf(va)) == 0 && Walk(mem', r, PathOf(va)) == Unmapped {
      TopIndex(va);
    }
  }

  lemma Settle(vmm: VirtualMemoryManager, pml4: u64, a: View, img: Image, own: bool, status: ElfLoadStatus, leak: nat,
               file: seq<Byte>, v: ElfLoadStatus)
    requires Progress(vmm, pml4, a, img, own, status, leak) && Bare(a.mem, vmm.RootFrame(pml4)) && |file| < TWO64
    requires Verdict(file, Loaded) && Verdict(file, v)
             && (v == Loaded ==> Ended(status) && Decided(status, a, vmm.RootFrame(pml4), img.Keys, file, false))
    ensures Settled(status, file, Count(a.used, false) + 1)
  {
    hide Paid, Placed, Accounted, Leaks, Bare, Decided, Settled, Verdict, Count, Ended, PhysicalMemoryManager.Valid;
    VerdictUnique(file, v);
    FreeCount(vmm.pmm);
    Outcome(status, a, vmm.RootFrame(pml4), img.Keys, file, vmm.ram.frames, vmm.pmm.freeFrames);
  }

  lemma NoRoot(file: seq<Byte>)
    requires |file| < TWO64 && Verdict(file, Loaded)
    ensures Settled(AllocationFailed, file, 0)
  {
    hide Verdict, ValidateHeader, Fine, Blocked;
    AcceptedFits(file);
    ShortIsNotBlocked(file, 0);
    assert !Fine(file, 0) by { FineNeedsRoot(file); }
  }

  lemma FineNeedsRoot(file: seq<Byte>)
    requires |file| < TWO64 && ValidateHeader(file) == Loaded
    ensures !Fine(file, 0)
  {
    hide ValidateHeader, Clash, AllPages;
  }

  /** What pages cost in an empty space. */
  lemma BareCost(mem: Memory, r: nat, pages: set<u64>)
    requires Bare(mem, r) && forall va :: va in pages ==> va < LOWER_HALF
    ensures Cost(mem, r, pages) == Need(pages)
  {
    hide Depth, Walk, PathOf, Needed, Prefixes;
    AllNeeded(mem, r, pages);
  }

  lemma EarlierLow(file: seq<Byte>, i: nat, va: int)
    requires |file| < TWO64 && ValidateHeader(file) == Loaded && i <= PhNum(file)
    ensures forall v :: v in Earlier(file, i, va) ==> v < LOWER_HALF
  {
    hide ValidateHeader, PhNum, FromSegment, WantedAt;
  }

  /** In an empty space the three outcomes exclude one another, and each has its reason. */
  lemma Outcome(status: ElfLoadStatus, a: View, r: nat, pages: set<u64>, file: seq<Byte>, mem: Memory, free: nat)
    requires |file| < TWO64 && Bare(a.mem, r) && Ended(status)
    requires Decided(status, a, r, pages, file, false) && (status == Loaded ==> Paid(a, mem, r, pages, free))
    ensures Settled(status, file, Count(a.used, false) + 1)
  {
    hide ValidateHeader, Bare, Stopped, Fine, Short, Blocked, Paid, Clash, AllPages, Count;
    var all := Count(a.used, false) + 1;
    match status
    case Loaded =>
      OutcomeLoaded(a, r, pages, file, mem, free);
      FineIsNotShort(file, all);
    case AllocationFailed =>
      OutcomeStopped(status, a, r, pages, file);
      ShortIsNotBlocked(file, all);
      if Fine(file, all) { FineIsNotShort(file, all); }
    case MappingFailed =>
      OutcomeStopped(status, a, r, pages, file);
      if Short(file, all) { ShortIsNotBlocked(file, all); }
      if Fine(file, all) { FineIsNotShort(file, all); }
  }

  lemma OutcomeLoaded(a: View, r: nat, pages: set<u64>, file: seq<Byte>, mem: Memory, free: nat)
    requires |file| < TWO64 && ValidateHeader(file) == Loaded && Bare(a.mem, r)
    requires !Clash(file) && pages == AllPages(file) && Paid(a, mem, r, pages, free)
    ensures Fine(file, Count(a.used, false) + 1)
  {
    hide ValidateHeader, PhNum, Bare, Clash, Built, Cost, Need, Count, Earlier;
    EarlierLow(file, PhNum(file), LOWER_HALF);
    BareCost(a.mem, r, pages);
  }

  lemma OutcomeStopped(status: ElfLoadStatus, a: View, r: nat, pages: set<u64>, file: seq<Byte>)
    requires |file| < TWO64 && ValidateHeader(file) == Loaded && Bare(a.mem, r) && Stopped(status, a, r, pages, file)
    ensures status == AllocationFailed ==> Short(file, Count(a.used, false) + 1)
    ensures status == MappingFailed ==> Blocked(file, Count(a.used, false) + 1)
  {
    hide ValidateHeader, PhNum, Bare, Earlier, Cost, Need, Count, Spot;
    var i: nat, va: u64 :| i <= PhNum(file) && Spot(file, i, va) && pages == Earlier(file, i, va)
                           && Stuck(status, a, r, pages, va);
    SpotLow(file, i, va);
    EarlierLow(file, i, va);
    BareCost(a.mem, r, pages);
    BareCost(a.mem, r, pages + {va});
    BareAt(a.mem, r, va);
    assert status == MappingFailed ==> BlockedAt(file, i, va, Count(a.used, false) + 1);
  }

  lemma SpotLow(file: seq<Byte>, i: nat, va: u64)
    requires |file| < TWO64 && ValidateHeader(file) == Loaded && i <= PhNum(file) && Spot(file, i, va)
    ensures va < LOWER_HALF
  {
    hide ValidateHeader, PhNum, WantedAt, Clean;
  }

  lemma BareAt(mem: Memory, r: nat, va: u64)
    requires Bare(mem, r) && va < LOWER_HALF
    ensures Walk(mem, r, PathOf(va)) == Unmapped
  {
    hide Walk, PathOf, Depth;
  }

  /** What the target holds after the load is what was added since it was created; the other roots are as they were. */
  lemma AfterLoad(a: View, b: View, c: View, c': View, k: nat, r: nat, img: Image)
    requires Sound(a.mem, a.forest) && r !in a.forest && FreshSpace(a.mem, b.mem, a.forest, k, r)
             && GrewOnlyUnder(a, b, r) && IsTable(b.forest, r, 4)
    requires Placed(b, c, r, img) && c'.mem == c.mem && c'.forest == c.forest && Sound(c.mem, c.forest)
             && GrewOnlyUnder(b, c', r)
    ensures SameElsewhere(a.mem, c'.mem, a.forest, r) && GrewOnlyUnder(a, c', r) && IsTable(c.forest, r, 4)
    ensures Below(c.forest, r) + {r} == c.forest.Keys - a.forest.Keys
    ensures Without(c.forest, Below(c.forest, r) + {r}) == a.forest
            && Cleared(c'.used, Below(c.forest, r) + {r}) == a.used
  {
    hide Sound, FreshSpace, GrewOnlyUnder, Placed, SameElsewhere, Below, Walk;
    FreshSameElsewhere(a.mem, b.mem, a.forest, k, r);
    PlacedElsewhere(b, c, r, img);
    SameElsewhereTrans(a, b, c.mem, r);
    GrewTrans(a, b, c', r);
    GrewKeepsRoot(b, c', r);
    OwnedIsAdded(a, c', r);
  }

  lemma AfterDestroy(a: View, c: View, mem': Memory, r: nat)
    requires SameElsewhere(a.mem, c.mem, a.forest, r) && SameElsewhere(c.mem, mem', c.forest, r)
             && GrewOnlyUnder(a, c, r) && r !in a.forest
    ensures SameWalks(a.mem, mem', a.forest)
  {
    hide SameElsewhere, GrewOnlyUnder, SameWalks, Walk;
    SameElsewhereTrans(a, c, mem', r);
    SameElsewhereNew(a, mem', r);
  }

  lemma PlacedElsewhere(a: View, b: View, r: nat, img: Image)
    requires Placed(a, b, r, img)
    ensures SameElsewhere(a.mem, b.mem, a.forest, r)
  {
    hide Walk, PathOf;
  }

  lemma LostOne(a: View, c: View, r: nat, f: nat)
    requires f < |c.used| == |a.used| && c.used[f] && !a.used[f] && f !in Below(c.forest, r) + {r}
    requires Cleared(c.used[f := false], Below(c.forest, r) + {r}) == a.used
    ensures Cleared(c.used, Below(c.forest, r) + {r}) == a.used[f := true]
  {
    hide Below;
  }
}
