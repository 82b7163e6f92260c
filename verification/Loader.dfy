/** kernel/userland/elf_loader.cpp, load: placing segments and the stack page by page. */
module Loader {
  import opened Machine
  import opened PagingTypes
  import opened Ram
  import opened Pmm
  import opened PageTables
  import opened Ownership
  import opened Vmm
  import opened AddressSpaces
  import opened UserMemory
  import opened Elf
  import opened LoadCost
  import opened LoadOrder

  datatype PageImage = PageImage(flags: Flags, bytes: PageBytes)

  /** The pages placed so far, by address. */
  type Image = map<u64, PageImage>

  ghost predicate Covers(img: Image, p: Path)
  {
    exists va :: va in img && PathOf(va) == p
  }

  lemma CoversMore(img: Image, va: u64, page: PageImage, p: Path)
    ensures Covers(img[va := page], p) <==> Covers(img, p) || p == PathOf(va)
  {
    hide PathOf;
    var img' := img[va := page];
    assert va in img';
    if Covers(img, p) {
      var va' :| va' in img && PathOf(va') == p;
      assert va' in img';
    }
  }

  /** An allocated frame that is not a page table. */
  predicate DataFrame(b: View, f: nat)
  {
    f in b.mem && f < |b.used| && b.used[f] && (f in b.forest ==> b.forest[f].level == 0)
  }

  /** Page `va` shows exactly these flags and bytes. */
  ghost predicate Backed(b: View, r: nat, va: u64, page: PageImage)
  {
    match Walk(b.mem, r, PathOf(va))
    case Small(f, flags) => flags == page.flags && DataFrame(b, f) && AsBytes(b.mem[f]) == page.bytes
    case _ => false
  }

  ghost predicate AllBacked(a: View, b: View, r: nat, img: Image)
  {
    forall va {:trigger va in img} :: va in img ==>
      va % PAGE_SIZE == 0 && va < LOWER_HALF && Walk(a.mem, r, PathOf(va)) == Unmapped && Backed(b, r, va, img[va])
  }

  /** No translation differs but those of the image's pages under `r`. */
  ghost predicate OnlyImage(a: View, b: View, r: nat, img: Image)
  {
    forall r', p {:trigger Walk(b.mem, r', p)} ::
      IsTable(a.forest, r', 4) && !(r' == r && Covers(img, p)) ==> Walk(b.mem, r', p) == Walk(a.mem, r', p)
  }

  /** Frames in use keep their node, and their contents unless they are tables. */
  ghost predicate Kept(a: View, b: View)
  {
    && b.mem.Keys == a.mem.Keys && |b.used| == |a.used|
    && (forall t :: t in a.forest ==> t in b.forest && b.forest[t] == a.forest[t])
    && (forall f :: DataFrame(a, f) ==> DataFrame(b, f) && b.mem[f] == a.mem[f])
  }

  /** From `a` to `b` the image `img` appeared in the lower half of `r`, and nothing else changed. */
  ghost predicate Placed(a: View, b: View, r: nat, img: Image)
  {
    Kept(a, b) && AllBacked(a, b, r, img) && OnlyImage(a, b, r, img)
  }

  lemma PlacedNothing(a: View, r: nat)
    ensures Placed(a, a, r, map[])
  {
  }

  /** The page at `va` is the only one of the image on frame `f`. */
  ghost predicate Private(b: View, r: nat, img: Image, va: u64, f: nat)
  {
    && Walk(b.mem, r, PathOf(va)).Small? && Walk(b.mem, r, PathOf(va)).frame == f
    && forall va' :: va' in img && va' != va && Walk(b.mem, r, PathOf(va')).Small? ==>
         Walk(b.mem, r, PathOf(va')).frame != f
  }

  /** Allocating and zeroing a free frame disturbs nothing. */
  lemma TakenPlaced(a: View, b: View, r: nat, img: Image, f: nat)
    requires Placed(a, b, r, img) && Sound(b.mem, b.forest) && IsTable(a.forest, r, 4)
    requires f < |b.used| && !b.used[f] && f in b.mem && f !in b.forest
    ensures Placed(a, Taken(b, f), r, img)
  {
    hide Sound, Walk, Covers, PathOf;
    var c := Taken(b, f);
    forall va | va in img ensures Backed(c, r, va, img[va]) {
      DataWriteKeepsWalk(b.mem, b.forest, f, Zero, r, PathOf(va));
    }
    forall r', p | IsTable(a.forest, r', 4) ensures Walk(c.mem, r', p) == Walk(b.mem, r', p) {
      DataWriteKeepsWalk(b.mem, b.forest, f, Zero, r', p);
    }
  }

  /** Mapping it adds one page of zeroes to the image. */
  lemma MappedPlaced(a: View, b: View, c: View, r: nat, img: Image, va: u64, flags: Flags, f: nat)
    requires Placed(a, b, r, img) && IsTable(a.forest, r, 4) && va % PAGE_SIZE == 0 && va < LOWER_HALF
    requires DataFrame(b, f) && f !in b.forest && b.mem[f] == Zero && MapsOnly(b, c, r, PathOf(va), Small(f, flags))
    ensures va !in img && Placed(a, c, r, img[va := PageImage(flags, ZeroBytes())])
  {
    hide Walk, PathOf, Covers, AllBacked, OnlyImage;
    TopIndex(va);
    NewFramesWereFree(b, c);
    MappedBacked(a, b, c, r, img, va, flags, f);
    MappedOnlyImage(a, b, c, r, img, va, flags, f);
  }

  lemma MappedBacked(a: View, b: View, c: View, r: nat, img: Image, va: u64, flags: Flags, f: nat)
    requires AllBacked(a, b, r, img) && IsTable(b.forest, r, 4) && va % PAGE_SIZE == 0 && va < LOWER_HALF
    requires OnlyImage(a, b, r, img) && IsTable(a.forest, r, 4)
    requires DataFrame(b, f) && b.mem[f] == Zero && MapsOnly(b, c, r, PathOf(va), Small(f, flags))
    requires forall f :: DataFrame(b, f) ==> DataFrame(c, f) && c.mem[f] == b.mem[f]
    ensures forall va' :: va' in img ==> PathOf(va') != PathOf(va)
    ensures AllBacked(a, c, r, img[va := PageImage(flags, ZeroBytes())])
  {
    hide Walk, PathOf, Covers, DataFrame, MapsOnly, Backed, OnlyImage;
    forall va' | va' in img ensures PathOf(va') != PathOf(va) && Backed(c, r, va', img[va']) {
      StaysBacked(b, c, r, va, Small(f, flags), va', img[va']);
    }
    NotCovered(img, va);
    WasUnmapped(a, b, c, r, img, PathOf(va), Small(f, flags));
    NewlyBacked(b, c, r, va, flags, f);
  }

  lemma StaysBacked(b: View, c: View, r: nat, va: u64, leaf: Leaf, va': u64, page: PageImage)
    requires IsTable(b.forest, r, 4) && MapsOnly(b, c, r, PathOf(va), leaf) && Backed(b, r, va', page)
    requires forall f :: DataFrame(b, f) ==> DataFrame(c, f) && c.mem[f] == b.mem[f]
    ensures PathOf(va') != PathOf(va) && Backed(c, r, va', page)
  {
    hide Walk, PathOf, DataFrame, ChangedWhereShared, Grown, GrownUnder, TakenForTables, OnlyTablesDiffer;
  }

  lemma NewlyBacked(b: View, c: View, r: nat, va: u64, flags: Flags, f: nat)
    requires MapsOnly(b, c, r, PathOf(va), Small(f, flags)) && DataFrame(c, f) && c.mem[f] == Zero
    ensures Backed(c, r, va, PageImage(flags, ZeroBytes()))
  {
    hide Walk, PathOf, DataFrame, ChangedWhereShared, Grown, GrownUnder, TakenForTables, OnlyTablesDiffer;
  }

  lemma WasUnmapped(a: View, b: View, c: View, r: nat, img: Image, p: Path, leaf: Leaf)
    requires OnlyImage(a, b, r, img) && IsTable(a.forest, r, 4) && MapsOnly(b, c, r, p, leaf) && !Covers(img, p)
    ensures Walk(a.mem, r, p) == Unmapped
  {
    hide Walk, Covers, ChangedWhereShared, Grown, GrownUnder, TakenForTables, OnlyTablesDiffer;
    assert Walk(b.mem, r, p) == Unmapped;
  }

  lemma MappedOnlyImage(a: View, b: View, c: View, r: nat, img: Image, va: u64, flags: Flags, f: nat)
    requires OnlyImage(a, b, r, img) && Kept(a, b) && MapsOnly(b, c, r, PathOf(va), Small(f, flags))
             && PathOf(va).i4 < 256
    ensures OnlyImage(a, c, r, img[va := PageImage(flags, ZeroBytes())])
  {
    hide Walk, PathOf, Covers, ChangedWhereShared;
    var page := PageImage(flags, ZeroBytes());
    forall r', p | IsTable(a.forest, r', 4) && !(r' == r && Covers(img[va := page], p))
      ensures Walk(c.mem, r', p) == Walk(a.mem, r', p)
    {
      CoversMore(img, va, page, p);
      assert Walk(b.mem, r', p) == Walk(a.mem, r', p);
    }
  }

  lemma NotCovered(img: Image, va: u64)
    requires forall va' :: va' in img ==> PathOf(va') != PathOf(va)
    ensures !Covers(img, PathOf(va))
  {
    hide PathOf;
  }

  lemma NewFramesWereFree(b: View, c: View)
    requires TakenForTables(b, c) && Grown(b.forest, c.forest) && OnlyTablesDiffer(b.mem, c.mem, c.forest)
    ensures forall f :: DataFrame(b, f) ==> DataFrame(c, f) && c.mem[f] == b.mem[f]
  {
  }

  /** Writing into the frame of one page changes that page of the image. */
  lemma WrittenPlaced(a: View, b: View, r: nat, img: Image, va: u64, f: nat, bytes: PageBytes)
    requires Placed(a, b, r, img) && Sound(b.mem, b.forest) && IsTable(a.forest, r, 4)
    requires va in img && Private(b, r, img, va, f) && !DataFrame(a, f)
    ensures Placed(a, View(b.mem[f := Bytes(bytes)], b.forest, b.used), r, img[va := img[va].(bytes := bytes)])
  {
    hide Sound, Walk, PathOf, Covers;
    var c := View(b.mem[f := Bytes(bytes)], b.forest, b.used);
    var img' := img[va := img[va].(bytes := bytes)];
    assert Backed(b, r, va, img[va]);
    forall r', p | IsTable(a.forest, r', 4) ensures Walk(c.mem, r', p) == Walk(b.mem, r', p) {
      DataWriteKeepsWalk(b.mem, b.forest, f, Bytes(bytes), r', p);
    }
    forall va' | va' in img ensures Backed(c, r, va', img'[va']) {
      assert Backed(b, r, va', img[va']);
    }
    SameCover(img, va, img'[va]);
  }

  lemma SameCover(img: Image, va: u64, page: PageImage)
    requires va in img
    ensures forall p :: Covers(img[va := page], p) <==> Covers(img, p)
  {
    forall p ensures Covers(img[va := page], p) <==> Covers(img, p) { CoversMore(img, va, page, p); }
  }

  /** Freshness: the frame of the newest page is shared with nobody. */
  lemma NewestIsPrivate(a: View, b: View, c: View, r: nat, img: Image, va: u64, flags: Flags, f: nat)
    requires Placed(a, b, r, img) && IsTable(a.forest, r, 4) && va !in img && va < LOWER_HALF && va % PAGE_SIZE == 0
    requires f < |b.used| && !b.used[f] && MapsOnly(Taken(b, f), c, r, PathOf(va), Small(f, flags))
    requires Sound(b.mem, b.forest) && f in b.mem && f !in b.forest
    ensures Private(c, r, img[va := PageImage(flags, ZeroBytes())], va, f) && !DataFrame(a, f)
  {
    hide Sound, Walk, PathOf;
    forall va' | va' in img
      ensures Walk(c.mem, r, PathOf(va')) == Walk(b.mem, r, PathOf(va')) && PathOf(va') != PathOf(va)
    {
      if PathOf(va') == PathOf(va) { PathIdentifiesPage(va, va'); }
      DataWriteKeepsWalk(b.mem, b.forest, f, Zero, r, PathOf(va'));
      assert Backed(b, r, va', img[va']);
    }
  }

  lemma ExtendsPlaced(a: View, b: View, c: View, r: nat, img: Image)
    requires Placed(a, b, r, img) && IsTable(a.forest, r, 4) && Extends(b, c, r, true)
    ensures Placed(a, c, r, img)
  {
    hide Walk, PathOf, Covers;
    NewFramesWereFree(b, c);
    forall va | va in img ensures Backed(c, r, va, img[va]) { assert Backed(b, r, va, img[va]); }
    forall r', p | IsTable(a.forest, r', 4)
      ensures Walk(c.mem, r', p) == Walk(b.mem, r', p)
    {
      assert IsTable(b.forest, r', 4);
    }
  }

  lemma RecordedPlaced(a: View, b: View, forest: Forest, r: nat, img: Image, f: nat)
    requires Placed(a, b, r, img) && Recorded(b.forest, forest, f)
    ensures Placed(a, View(b.mem, forest, b.used), r, img)
  {
    hide Walk, PathOf, Covers;
    var c := View(b.mem, forest, b.used);
    forall va | va in img ensures Backed(c, r, va, img[va]) { assert Backed(b, r, va, img[va]); }
  }

  /** Data frames are accounted for by the forest: everything new belongs to `r`. */
  ghost predicate Accounted(a: View, b: View, r: nat)
  {
    LeavesOwned(b.mem, b.forest, r) && GrewOnlyUnder(a, b, r)
  }

  /** Page `va` was mapped before, or is part of the image already. */
  ghost predicate Occupied(a: View, r: nat, img: Image, va: u64)
  {
    va in img || Walk(a.mem, r, PathOf(va)) != Unmapped
  }

  lemma MappedIsOccupied(a: View, b: View, r: nat, img: Image, va: u64, f: nat)
    requires Placed(a, b, r, img) && Sound(b.mem, b.forest) && IsTable(a.forest, r, 4) && Available(b, f)
             && va < LOWER_HALF && va % PAGE_SIZE == 0
    ensures Walk(Taken(b, f).mem, r, PathOf(va)) != Unmapped ==> Occupied(a, r, img, va)
  {
    hide Sound, Walk, PathOf, Covers, AllBacked;
    DataWriteKeepsWalk(b.mem, b.forest, f, Zero, r, PathOf(va));
    if va !in img {
      PagesCovered(a, b, r, img, va);
    }
  }

  lemma PagesCovered(a: View, b: View, r: nat, img: Image, va: u64)
    requires AllBacked(a, b, r, img) && va !in img && va < LOWER_HALF && va % PAGE_SIZE == 0
    ensures !Covers(img, PathOf(va))
  {
    hide PathOf, Walk, Backed;
    forall va' | va' in img ensures PathOf(va') != PathOf(va) { DistinctPages(va, va'); }
  }

  lemma DistinctPages(x: u64, y: u64)
    requires x < LOWER_HALF && y < LOWER_HALF && x % PAGE_SIZE == 0 && y % PAGE_SIZE == 0 && x != y
    ensures PathOf(x) != PathOf(y)
  {
    if PathOf(x) == PathOf(y) { PathIdentifiesPage(x, y); }
  }

  /** One page: allocate, zero, map. With `own`, the frame is recorded as belonging to the address space. */
  method MapZeroed(vmm: VirtualMemoryManager, pml4: u64, va: u64, flags: Flags, ghost a: View, ghost img: Image,
                   ghost own: bool)
    returns (status: ElfLoadStatus, frame: nat)
    requires vmm.Valid() && va % PAGE_SIZE == 0 && va < LOWER_HALF && flags.present
    requires IsTable(a.forest, vmm.RootFrame(pml4), 4) && Placed(a, vmm.Now(), vmm.RootFrame(pml4), img)
    requires own ==> vmm.RootFrame(pml4) != vmm.root / PAGE_SIZE && Accounted(a, vmm.Now(), vmm.RootFrame(pml4))
    requires Paid(a, vmm.ram.frames, vmm.RootFrame(pml4), img.Keys, vmm.pmm.freeFrames)
    modifies vmm`forest, vmm.ram, vmm.pmm.bitmap, vmm.pmm`used, vmm.pmm`freeFrames, vmm.pmm`allocatedFrames,
             vmm.pmm`lastSearchFrame
    ensures vmm.Valid() && status in {Loaded, AllocationFailed, MappingFailed}
    ensures status == Loaded ==>
              va !in img
              && Fresh(a, vmm.Now(), vmm.RootFrame(pml4), img[va := PageImage(flags, ZeroBytes())], va, frame)
    ensures status != Loaded ==> Placed(a, vmm.Now(), vmm.RootFrame(pml4), img)
    ensures own && status != MappingFailed ==> Accounted(a, vmm.Now(), vmm.RootFrame(pml4))
    ensures own && status == MappingFailed ==> Leaks(a, vmm.Now(), vmm.RootFrame(pml4), frame)
    ensures status == Loaded ==> Paid(a, vmm.ram.frames, vmm.RootFrame(pml4), img.Keys + {va}, vmm.pmm.freeFrames)
    ensures status == AllocationFailed ==> vmm.Now() == old(vmm.Now()) && vmm.pmm.freeFrames == old(vmm.pmm.freeFrames)
    ensures status != Loaded && !vmm.pmm.forceAllocFailure ==> Stuck(status, a, vmm.RootFrame(pml4), img.Keys, va)
  {
    hide PhysicalMemoryManager.Valid, Sound, LeavesOwned, Extends, MapsOnly, Held, OwnersElsewhere, Placed, PathOf,
         Accounted, Leaks, Fresh, Occupied, Paid, Stuck, Charged, Depth, Walk, SmallRam, InRam, Canonical, EntryFor,
         PageAligned;
    ghost var b, r, p, free := vmm.Now(), vmm.RootFrame(pml4), PathOf(va), vmm.pmm.freeFrames;
    frame := TakeFrame(vmm, r);
    if frame == 0 {
      if !vmm.pmm.forceAllocFailure { StuckAtOnce(a, b.mem, r, img, va); }
      return AllocationFailed, 0;
    }
    PlacedKeepsRoot(a, b, r, img);
    TakenPaid(a, b, r, img.Keys, free, frame);
    TopIndex(va);
    MappedIsOccupied(a, b, r, img, va, frame);
    var mapped := MapFrame(vmm, pml4, va, frame, flags);
    ghost var c := vmm.Now();
    if mapped != Success {
      MapFailed(a, b, c, r, img, frame);
      if !vmm.pmm.forceAllocFailure {
        MapStuck(a, Taken(b, frame).mem, c.mem, r, img, va, free, vmm.pmm.freeFrames, mapped);
      }
      if own { MapLeaks(a, b, c, r, frame); }
      return MappingFailed, frame;
    }
    MapSucceeded(a, b, c, r, img, va, flags, frame);
    PaidNext(a, Taken(b, frame).mem, c.mem, r, img.Keys, va, free, vmm.pmm.freeFrames);
    if own {
      RecordMapped(vmm, a, b, r, img[va := PageImage(flags, ZeroBytes())], va, flags, frame);
    }
    return Loaded, frame;
  }

  /** `map_page_in_table` of an allocated frame at a page of the lower half. */
  method MapFrame(vmm: VirtualMemoryManager, pml4: u64, va: u64, frame: nat, flags: Flags) returns (mapped: VmmStatus)
    requires vmm.Valid() && IsTable(vmm.forest, vmm.RootFrame(pml4), 4) && va % PAGE_SIZE == 0 && va < LOWER_HALF
    requires frame < |vmm.pmm.usable| && vmm.pmm.usable[frame] && flags.present
    modifies vmm`forest, vmm.ram, vmm.pmm.bitmap, vmm.pmm`used, vmm.pmm`freeFrames, vmm.pmm`allocatedFrames,
             vmm.pmm`lastSearchFrame
    ensures vmm.Valid() && mapped in {Success, AlreadyMapped, HugePageCollision, OutOfMemory}
    ensures Charged(old(vmm.ram.frames), vmm.ram.frames, vmm.RootFrame(pml4), PathOf(va), old(vmm.pmm.freeFrames),
              vmm.pmm.freeFrames)
    ensures mapped in {Success, AlreadyMapped} <==> Depth(vmm.ram.frames, vmm.RootFrame(pml4), PathOf(va)) == 3
    ensures mapped == Success ==>
              MapsOnly(old(vmm.Now()), vmm.Now(), vmm.RootFrame(pml4), PathOf(va), Small(frame, flags))
    ensures mapped != Success ==> Extends(old(vmm.Now()), vmm.Now(), vmm.RootFrame(pml4), true)
    ensures mapped in {AlreadyMapped, HugePageCollision} ==>
              Walk(old(vmm.ram.frames), vmm.RootFrame(pml4), PathOf(va)) != Unmapped
    ensures mapped == OutOfMemory ==> vmm.pmm.forceAllocFailure || vmm.pmm.freeFrames == 0
  {
    hide PhysicalMemoryManager.Valid, Sound, Extends, MapsOnly, Held, OwnersElsewhere, PathOf, Charged, Depth, Walk;
    FrameFits(frame);
    mapped := vmm.MapPageInTable(pml4, va, frame * PAGE_SIZE, flags);
  }

  lemma StuckAtOnce(a: View, mem: Memory, r: nat, img: Image, va: u64)
    requires Paid(a, mem, r, img.Keys, 0)
    ensures Stuck(AllocationFailed, a, r, img.Keys, va)
  {
  }

  lemma TakenPaid(a: View, b: View, r: nat, pages: set<u64>, free: int, f: nat)
    requires Paid(a, b.mem, r, pages, free) && Sound(b.mem, b.forest) && IsTable(b.forest, r, 4) && Available(b, f)
    ensures Paid(a, Taken(b, f).mem, r, pages, free)
  {
    hide Paid, Sound, Depth, Taken;
    forall q: Path ensures Depth(Taken(b, f).mem, r, q) == Depth(b.mem, r, q) { TakenSameDepth(b, f, r, q); }
    PaidSame(a, b.mem, Taken(b, f).mem, r, pages, free);
  }

  /** A page is refused when its place is taken, or when its tables used up the last frame. */
  lemma MapStuck(a: View, mem: Memory, mem': Memory, r: nat, img: Image, va: u64, free: int, free': int,
                 mapped: VmmStatus)
    requires Paid(a, mem, r, img.Keys, free) && free > 0 && PathOf(va).i4 < 256
    requires Walk(mem, r, PathOf(va)) != Unmapped ==> Occupied(a, r, img, va)
    requires mapped in {AlreadyMapped, HugePageCollision} ==> Walk(mem, r, PathOf(va)) != Unmapped
    requires mapped in {AlreadyMapped, HugePageCollision, OutOfMemory}
    requires mapped == OutOfMemory ==>
               free' == 0 && Depth(mem', r, PathOf(va)) < 3 && Charged(mem, mem', r, PathOf(va), free - 1, free')
    ensures Stuck(MappingFailed, a, r, img.Keys, va)
  {
    hide Built, Cost, Depth, Charged, Walk, PathOf;
    if mapped == OutOfMemory { PaidStuck(a, mem, mem', r, img.Keys, va, free); }
  }

  ghost predicate Available(b: View, f: nat)
  {
    f < |b.used| && !b.used[f] && f in b.mem && f !in b.forest
  }

  lemma MapFailed(a: View, b: View, c: View, r: nat, img: Image, f: nat)
    requires Placed(a, b, r, img) && Sound(b.mem, b.forest) && IsTable(a.forest, r, 4) && Available(b, f)
    requires Extends(Taken(b, f), c, r, true)
    ensures Placed(a, c, r, img)
  {
    hide Placed, Sound, Extends;
    TakenPlaced(a, b, r, img, f);
    ExtendsPlaced(a, Taken(b, f), c, r, img);
  }

  lemma MapLeaks(a: View, b: View, c: View, r: nat, f: nat)
    requires Accounted(a, b, r) && Sound(b.mem, b.forest) && Available(b, f) && IsTable(b.forest, r, 4)
    requires Extends(Taken(b, f), c, r, true) && Sound(c.mem, c.forest)
    ensures Leaks(a, c, r, f)
  {
    hide GrewOnlyUnder, Sound, Extends, LeavesOwned;
    TakenSound(b, f, r);
    ExtendsKeepsOwners(Taken(b, f), c, r, true);
    GrewGivenBack(b, f, c, r);
    GrewTrans(a, b, View(c.mem, c.forest, c.used[f := false]), r);
    TakenIsFree(a, b, r, f);
  }

  lemma MapSucceeded(a: View, b: View, c: View, r: nat, img: Image, va: u64, flags: Flags, f: nat)
    requires Placed(a, b, r, img) && Sound(b.mem, b.forest) && IsTable(a.forest, r, 4) && Available(b, f)
    requires va % PAGE_SIZE == 0 && va < LOWER_HALF && MapsOnly(Taken(b, f), c, r, PathOf(va), Small(f, flags))
    ensures va !in img && Fresh(a, c, r, img[va := PageImage(flags, ZeroBytes())], va, f) && f !in c.forest
  {
    hide Placed, Sound, PathOf, Walk, Private;
    TakenPlaced(a, b, r, img, f);
    MappedPlaced(a, Taken(b, f), c, r, img, va, flags, f);
    NewestIsPrivate(a, b, c, r, img, va, flags, f);
    NewFramesWereFree(Taken(b, f), c);
  }

  ghost method RecordMapped(vmm: VirtualMemoryManager, a: View, b: View, r: nat, img: Image, va: u64, flags: Flags,
                            f: nat)
    requires vmm.Valid() && va < LOWER_HALF && r != vmm.root / PAGE_SIZE && IsTable(b.forest, r, 4)
    requires f < |vmm.pmm.usable| && vmm.pmm.usable[f]
    requires Fresh(a, vmm.Now(), r, img, va, f) && Available(b, f) && Accounted(a, b, r) && Sound(b.mem, b.forest)
    requires MapsOnly(Taken(b, f), vmm.Now(), r, PathOf(va), Small(f, flags))
    modifies vmm`forest
    ensures vmm.Valid() && Accounted(a, vmm.Now(), r) && Fresh(a, vmm.Now(), r, img, va, f)
  {
    hide PhysicalMemoryManager.Valid, Sound, LeavesOwned, MapsOnly, Held, OwnersElsewhere, Placed, PathOf, Private,
         GrewOnlyUnder;
    TopIndex(va);
    TakenSound(b, f, r);
    ghost var c := vmm.Now();
    RecordLeaf(vmm, r, PathOf(va), f, flags, b);
    GrewTrans(a, b, vmm.Now(), r);
    RecordedPlaced(a, c, vmm.forest, r, img, f);
    SamePrivate(c, vmm.Now(), r, img, va, f);
  }

  lemma SamePrivate(b: View, c: View, r: nat, img: Image, va: u64, f: nat)
    requires Private(b, r, img, va, f) && c.mem == b.mem
    ensures Private(c, r, img, va, f)
  {
  }

  /** The image is placed, and its page `va` sits alone on a frame taken for it. */
  ghost predicate Fresh(a: View, b: View, r: nat, img: Image, va: u64, f: nat)
  {
    Placed(a, b, r, img) && Private(b, r, img, va, f) && !DataFrame(a, f) && DataFrame(b, f)
  }

  /** All new frames but `f` belong to `r`; `f` was free, is allocated, and belongs to nobody. */
  ghost predicate Leaks(a: View, b: View, r: nat, f: nat)
  {
    && f < |b.used| && b.used[f] && f < |a.used| && !a.used[f] && f !in b.forest && LeavesOwned(b.mem, b.forest, r)
    && GrewOnlyUnder(a, View(b.mem, b.forest, b.used[f := false]), r)
  }

  lemma PlacedKeepsRoot(a: View, b: View, r: nat, img: Image)
    requires Placed(a, b, r, img) && IsTable(a.forest, r, 4)
    ensures IsTable(b.forest, r, 4)
  {
  }

  lemma TakenIsFree(a: View, b: View, r: nat, f: nat)
    requires GrewOnlyUnder(a, b, r) && f < |b.used| && !b.used[f]
    ensures f < |a.used| && !a.used[f]
  {
  }

  // ---------------------------------------------------------------- segments

  method WriteData(vmm: VirtualMemoryManager, f: nat, bytes: PageBytes, ghost r: nat)
    requires vmm.Valid() && f in vmm.ram.frames && (f in vmm.forest ==> vmm.forest[f].level == 0)
    modifies vmm.ram
    ensures vmm.Valid() && vmm.ram.frames == old(vmm.ram.frames)[f := Bytes(bytes)]
    ensures old(LeavesOwned(vmm.ram.frames, vmm.forest, r)) ==> LeavesOwned(vmm.ram.frames, vmm.forest, r)
  {
    hide PhysicalMemoryManager.Valid, Sound, LeavesOwned;
    DataWriteSound(vmm.ram.frames, vmm.forest, f, Bytes(bytes), r);
    vmm.ram.frames := vmm.ram.frames[f := Bytes(bytes)];
  }

  /** What every step of the loader leaves behind. */
  ghost predicate Progress(vmm: VirtualMemoryManager, pml4: u64, a: View, img: Image, own: bool, status: ElfLoadStatus,
                           leak: nat)
    reads vmm, vmm.pmm, vmm.pmm.bitmap, vmm.ram, vmm.pmm.ram, vmm.pmm.tracker
  {
    && vmm.Valid() && IsTable(a.forest, vmm.RootFrame(pml4), 4) && Placed(a, vmm.Now(), vmm.RootFrame(pml4), img)
    && (own ==> vmm.RootFrame(pml4) != vmm.root / PAGE_SIZE)
    && (own && status != MappingFailed ==> Accounted(a, vmm.Now(), vmm.RootFrame(pml4)))
    && (own && status == MappingFailed ==> Leaks(a, vmm.Now(), vmm.RootFrame(pml4), leak))
    && (status != MappingFailed ==> Paid(a, vmm.ram.frames, vmm.RootFrame(pml4), img.Keys, vmm.pmm.freeFrames))
  }

  /** One page of a segment. */
  method PlacePage(vmm: VirtualMemoryManager, pml4: u64, file: seq<Byte>, s: Segment, va: u64, ghost a: View,
                   ghost img: Image, ghost own: bool)
    returns (status: ElfLoadStatus, ghost img': Image, ghost leak: nat)
    requires Progress(vmm, pml4, a, img, own, Loaded, 0) && Fits(s, |file|) && va % PAGE_SIZE == 0 && va < LOWER_HALF
    modifies vmm`forest, vmm.ram, vmm.pmm.bitmap, vmm.pmm`used, vmm.pmm`freeFrames, vmm.pmm`allocatedFrames,
             vmm.pmm`lastSearchFrame
    ensures Progress(vmm, pml4, a, img', own, status, leak) && status in {Loaded, AllocationFailed, MappingFailed}
    ensures status == Loaded ==> va !in img && img' == img[va := PageImage(SegmentFlags(s), PageContents(file, s, va))]
    ensures status != Loaded ==>
              img' == img && (!vmm.pmm.forceAllocFailure ==> Stuck(status, a, vmm.RootFrame(pml4), img'.Keys, va))
  {
    hide PhysicalMemoryManager.Valid, Sound, LeavesOwned, Held, OwnersElsewhere, Placed, Leaks, GrewOnlyUnder, Private,
         SegmentFlags, PageContents, Stuck, Paid;
    img', leak := img, 0;
    var frame;
    assert SegmentFlags(s).present by { SegmentFlagsPresent(s); }
    status, frame := MapZeroed(vmm, pml4, va, SegmentFlags(s), a, img, own);
    leak := frame;
    if status != Loaded { return; }
    img' := img[va := PageImage(SegmentFlags(s), ZeroBytes())];
    var bytes := FillPage(file, s, va);
    ghost var b := vmm.Now();
    WrittenPlaced(a, b, vmm.RootFrame(pml4), img', va, frame, bytes);
    PlacedKeepsRoot(a, b, vmm.RootFrame(pml4), img');
    WrittenPaid(a, b, vmm.RootFrame(pml4), img.Keys + {va}, vmm.pmm.freeFrames, frame, bytes);
    WriteData(vmm, frame, bytes, vmm.RootFrame(pml4));
    assert img'[va := img'[va].(bytes := bytes)] == img[va := PageImage(SegmentFlags(s), bytes)];
    img' := img[va := PageImage(SegmentFlags(s), bytes)];
    assert img'.Keys == img.Keys + {va};
    if own { SameGrowth(a, b, vmm.Now(), vmm.RootFrame(pml4)); }
  }

  lemma WrittenPaid(a: View, b: View, r: nat, pages: set<u64>, free: int, f: nat, bytes: PageBytes)
    requires Paid(a, b.mem, r, pages, free) && Sound(b.mem, b.forest) && IsTable(b.forest, r, 4) && DataFrame(b, f)
    ensures Paid(a, b.mem[f := Bytes(bytes)], r, pages, free)
  {
    hide Paid, Depth;
    var mem' := b.mem[f := Bytes(bytes)];
    forall t, i: Index | t in b.forest && b.forest[t].level >= 2 ensures EntryAt(mem', t, i) == EntryAt(b.mem, t, i) { }
    forall q: Path ensures Depth(mem', r, q) == Depth(b.mem, r, q) { SameDepth(b.mem, mem', b.forest, r, q); }
    PaidSame(a, b.mem, mem', r, pages, free);
  }

  lemma SegmentFlagsPresent(s: Segment)
    ensures SegmentFlags(s).present
  {
  }

  lemma SameGrowth(a: View, b: View, c: View, r: nat)
    requires GrewOnlyUnder(a, b, r) && c.forest == b.forest && c.used == b.used
    ensures GrewOnlyUnder(a, c, r)
  {
  }

  /** The image shows every page of the segment. */
  ghost predicate HasSegment(img: Image, file: seq<Byte>, s: Segment)
  {
    Fits(s, |file|) && HasPagesBelow(img, file, s, LOWER_HALF)
  }

  ghost predicate HasPagesBelow(img: Image, file: seq<Byte>, s: Segment, limit: int)
    requires Fits(s, |file|)
  {
    forall va: u64 :: InSegment(s, va) && va < limit ==>
      va in img && img[va] == PageImage(SegmentFlags(s), PageContents(file, s, va))
  }

  ghost predicate Extended(img: Image, img': Image)
  {
    forall va :: va in img ==> va in img' && img'[va] == img[va]
  }

  method LoadSegment(vmm: VirtualMemoryManager, pml4: u64, file: seq<Byte>, s: Segment, count: nat, ghost a: View,
                     ghost img: Image, ghost own: bool)
    returns (status: ElfLoadStatus, pages: nat, ghost img': Image, ghost leak: nat)
    requires Progress(vmm, pml4, a, img, own, Loaded, 0) && Fits(s, |file|) && count == |img|
    modifies vmm`forest, vmm.ram, vmm.pmm.bitmap, vmm.pmm`used, vmm.pmm`freeFrames, vmm.pmm`allocatedFrames,
             vmm.pmm`lastSearchFrame
    ensures Progress(vmm, pml4, a, img', own, status, leak) && status in {Loaded, AllocationFailed, MappingFailed}
    ensures Extended(img, img') && pages == |img'| && forall va :: va in img' ==> va in img || InSegment(s, va)
    ensures status == Loaded ==> HasSegment(img', file, s) && UpTo(img, img', s, LOWER_HALF)
    ensures status != Loaded && !vmm.pmm.forceAllocFailure ==>
              exists va: u64 ::
                InSegment(s, va) && UpTo(img, img', s, va) && Stuck(status, a, vmm.RootFrame(pml4), img'.Keys, va)
  {
    hide Stuck, Progress, PageContents, SegmentFlags, InSegment, HasPagesBelow, AlignDown, Partly, Extended, HasSegment,
         NoneOf, UpTo;
    var va, pageEnd := AlignDown(s.vaddr, PAGE_SIZE), AlignDown(s.vaddr + s.memsz + PAGE_SIZE - 1, PAGE_SIZE);
    status, pages, img', leak := Loaded, count, img, 0;
    SegmentRange(s, |file|);
    NoneOfStart(img, s);
    NothingBelow(img, file, s);
    while va < pageEnd
      invariant va % PAGE_SIZE == 0 && AlignDown(s.vaddr, PAGE_SIZE) <= va && status == Loaded && leak == 0
      invariant Progress(vmm, pml4, a, img', own, Loaded, 0) && pages == |img'| && Partly(img, img', file, s, va)
                && NoneOf(img, s, va)
    {
      ghost var before := img';
      status, img', leak := PlacePage(vmm, pml4, file, s, va, a, img', own);
      if status != Loaded {
        PartlyParts(img, img', file, s, va);
        PartlyKeys(img, img', file, s, va);
        assert InSegment(s, va);
        return;
      }
      pages := pages + 1;
      PageAdded(img, before, file, s, va);
      NoneOfMore(img, before, file, s, va);
      va := va + PAGE_SIZE;
      ProgressAnyLeak(vmm, pml4, a, img', own, leak, 0);
      leak := 0;
    }
    PartlyParts(img, img', file, s, va);
    PartlyAll(img, img', file, s, va);
  }

  /** The pages of `s` below `limit` were not in `img`, and are what `img'` has besides. */
  ghost predicate UpTo(img: Image, img': Image, s: Segment, limit: int)
  {
    NoneOf(img, s, limit) && img'.Keys == img.Keys + SegmentBelow(s, limit)
  }

  /** From `img` to `img'` the pages of `s` below `limit` were added. */
  ghost predicate Partly(img: Image, img': Image, file: seq<Byte>, s: Segment, limit: int)
    requires Fits(s, |file|)
  {
    Extended(img, img') && (forall va :: va in img' ==> va in img || (InSegment(s, va) && va < limit))
    && HasPagesBelow(img', file, s, limit)
  }

  /** No page of the segment below `limit` is in the image. */
  ghost predicate NoneOf(img: Image, s: Segment, limit: int)
  {
    forall va: u64 :: InSegment(s, va) && va < limit ==> va !in img
  }

  lemma NoneOfStart(img: Image, s: Segment)
    ensures NoneOf(img, s, AlignDown(s.vaddr, PAGE_SIZE))
  {
  }

  lemma NoneOfMore(img: Image, before: Image, file: seq<Byte>, s: Segment, va: u64)
    requires Fits(s, |file|) && Partly(img, before, file, s, va) && va !in before && va % PAGE_SIZE == 0
             && NoneOf(img, s, va)
    ensures NoneOf(img, s, va + PAGE_SIZE)
  {
    hide PageContents, SegmentFlags, InSegment;
    PagesAligned(s);
  }

  lemma PartlyKeys(img: Image, img': Image, file: seq<Byte>, s: Segment, limit: int)
    requires Fits(s, |file|) && Partly(img, img', file, s, limit) && NoneOf(img, s, limit)
    ensures UpTo(img, img', s, limit)
  {
    hide PageContents, SegmentFlags, InSegment;
    forall v: u64 | InSegment(s, v) ensures v < LOWER_HALF { BelowHalf(s, |file|, v); }
  }

  lemma PartlyAll(img: Image, img': Image, file: seq<Byte>, s: Segment, limit: int)
    requires Fits(s, |file|) && Partly(img, img', file, s, limit) && NoneOf(img, s, limit)
    requires limit >= AlignDown(s.vaddr + s.memsz + PAGE_SIZE - 1, PAGE_SIZE)
    ensures UpTo(img, img', s, LOWER_HALF)
  {
    hide InSegment, Partly, AlignDown, Fits;
    PartlyKeys(img, img', file, s, limit);
    SegmentRange(s, |file|);
    PagesAligned(s);
    assert SegmentBelow(s, limit) == SegmentBelow(s, LOWER_HALF);
  }

  lemma BelowHalf(s: Segment, size: nat, va: u64)
    requires Fits(s, size) && InSegment(s, va)
    ensures va < LOWER_HALF
  {
  }

  lemma PartlyParts(img: Image, img': Image, file: seq<Byte>, s: Segment, limit: int)
    requires Fits(s, |file|) && Partly(img, img', file, s, limit)
    ensures Extended(img, img') && forall va :: va in img' ==> va in img || InSegment(s, va)
    ensures limit >= AlignDown(s.vaddr + s.memsz + PAGE_SIZE - 1, PAGE_SIZE) ==> HasSegment(img', file, s)
  {
    hide PageContents, SegmentFlags, InSegment;
    SegmentRange(s, |file|);
    PagesAligned(s);
  }

  lemma SegmentRange(s: Segment, size: nat)
    requires Fits(s, size)
    ensures var lo, hi := AlignDown(s.vaddr, PAGE_SIZE), AlignDown(s.vaddr + s.memsz + PAGE_SIZE - 1, PAGE_SIZE);
            lo % PAGE_SIZE == 0 && hi <= LOWER_HALF && forall va :: va % PAGE_SIZE == 0 ==>
              (InSegment(s, va) <==> lo <= va < hi)
  {
  }

  lemma NothingBelow(img: Image, file: seq<Byte>, s: Segment)
    requires Fits(s, |file|)
    ensures Partly(img, img, file, s, AlignDown(s.vaddr, PAGE_SIZE))
  {
  }

  lemma PagesAligned(s: Segment)
    ensures forall va :: InSegment(s, va) ==> va % PAGE_SIZE == 0
  {
  }

  lemma PageAdded(img: Image, img': Image, file: seq<Byte>, s: Segment, va: u64)
    requires Fits(s, |file|) && Partly(img, img', file, s, va) && va !in img' && va % PAGE_SIZE == 0 && InSegment(s, va)
    ensures Partly(img, img'[va := PageImage(SegmentFlags(s), PageContents(file, s, va))], file, s, va + PAGE_SIZE)
  {
    hide PageContents, SegmentFlags;
  }

  lemma ProgressAnyLeak(vmm: VirtualMemoryManager, pml4: u64, a: View, img: Image, own: bool, leak: nat, leak': nat)
    requires Progress(vmm, pml4, a, img, own, Loaded, leak)
    ensures Progress(vmm, pml4, a, img, own, Loaded, leak')
  {
  }

  // ---------------------------------------------------------------- the whole image

  /** The first `n` program headers are in the image. */
  ghost predicate HasSegments(img: Image, file: seq<Byte>, n: nat)
    requires |file| < TWO64 && ValidateHeader(file) == Loaded && n <= PhNum(file)
  {
    forall i :: 0 <= i < n && Ph(file, i).Load() ==> HasSegment(img, file, Ph(file, i))
  }

  ghost predicate HasStack(img: Image, n: int)
  {
    forall va: u64 :: StackPage(va, n) ==> va in img && img[va] == PageImage(STACK_FLAGS, ZeroBytes())
  }

  /** Everything in the image comes from one of the first `n` headers or the first `k` stack pages. */
  ghost predicate OnlyFrom(img: Image, file: seq<Byte>, n: nat, k: int)
    requires |file| < TWO64 && ValidateHeader(file) == Loaded && n <= PhNum(file)
  {
    forall va :: va in img ==> FromSegment(file, n, va) || StackPage(va, k)
  }

  ghost predicate Complete(img: Image, file: seq<Byte>)
  {
    && |file| < TWO64 && ValidateHeader(file) == Loaded
    && HasSegments(img, file, PhNum(file)) && HasStack(img, USER_STACK_PAGES)
       && OnlyFrom(img, file, PhNum(file), USER_STACK_PAGES)
  }

  lemma SegmentsGrow(img: Image, img': Image, file: seq<Byte>, n: nat)
    requires |file| < TWO64 && ValidateHeader(file) == Loaded && n <= PhNum(file) && HasSegments(img, file, n)
             && Extended(img, img')
    ensures HasSegments(img', file, n)
  {
    hide Ph, InSegment, SegmentFlags, PageContents, ValidateHeader, Fits;
  }

  lemma NextSegment(img: Image, img': Image, file: seq<Byte>, n: nat)
    requires |file| < TWO64 && ValidateHeader(file) == Loaded && n < PhNum(file)
    requires HasSegments(img, file, n) && OnlyFrom(img, file, n, 0) && Extended(img, img')
    requires Ph(file, n).Load() ==>
               HasSegment(img', file, Ph(file, n)) && forall va :: va in img' ==>
                 va in img || InSegment(Ph(file, n), va)
    requires !Ph(file, n).Load() ==> img' == img
    ensures HasSegments(img', file, n + 1) && OnlyFrom(img', file, n + 1, 0)
  {
    hide Ph, InSegment, ValidateHeader, HasSegment, PhNum, StackPage;
    SegmentsGrow(img, img', file, n);
    forall va | va in img' ensures FromSegment(file, n + 1, va) || StackPage(va, 0) {
      if va in img && !StackPage(va, 0) {
        var i :| 0 <= i < n && Ph(file, i).Load() && InSegment(Ph(file, i), va);
        assert 0 <= i < n + 1;
      } else if va !in img {
        assert 0 <= n < n + 1 && InSegment(Ph(file, n), va);
      }
    }
  }

  /** A segment loaded whole wants nothing again. */
  lemma SegmentCounted(img: Image, img': Image, file: seq<Byte>, i: nat)
    requires |file| < TWO64 && ValidateHeader(file) == Loaded && i < PhNum(file) && Clean(file, i, 0)
             && img.Keys == Earlier(file, i, 0)
    requires if Ph(file, i).Load() then UpTo(img, img', Ph(file, i), LOWER_HALF) else img' == img
    ensures Clean(file, i + 1, 0) && img'.Keys == Earlier(file, i + 1, 0)
  {
    hide ValidateHeader, Ph, InSegment, PhNum, Clean, Earlier, SegmentBelow;
    EarlierStart(file, i);
    CleanWithin(file, i, LOWER_HALF);
    CleanNext(file, i);
  }

  lemma SegmentStopped(status: ElfLoadStatus, a: View, r: nat, img: Image, img': Image, file: seq<Byte>, i: nat,
                       va: u64)
    requires |file| < TWO64 && ValidateHeader(file) == Loaded && i < PhNum(file) && Clean(file, i, 0)
             && img.Keys == Earlier(file, i, 0)
    requires Ph(file, i).Load() && Fits(Ph(file, i), |file|) && InSegment(Ph(file, i), va)
             && UpTo(img, img', Ph(file, i), va)
    requires Stuck(status, a, r, img'.Keys, va)
    ensures Stopped(status, a, r, img'.Keys, file)
  {
    hide ValidateHeader, Ph, InSegment, PhNum, Clean, Earlier, SegmentBelow, Stuck;
    BelowHalf(Ph(file, i), |file|, va);
    EarlierWithin(file, i, va);
    CleanWithin(file, i, va);
    assert Spot(file, i, va);
  }

  /** With the stack placed as well, everything wanted is in place, and was wanted once. */
  lemma StackCounted(img: Image, img': Image, file: seq<Byte>)
    requires |file| < TWO64 && ValidateHeader(file) == Loaded && Clean(file, PhNum(file), 0)
             && img.Keys == Earlier(file, PhNum(file), 0)
    requires StackUpTo(img, img', LOWER_HALF)
    ensures !Clash(file) && img'.Keys == AllPages(file)
  {
    hide ValidateHeader, PhNum, Clean, Earlier, StackBelow, StackPage, Clash;
    EarlierWithin(file, PhNum(file), LOWER_HALF);
    CleanWithin(file, PhNum(file), LOWER_HALF);
    CleanAll(file);
  }

  lemma StackStopped(status: ElfLoadStatus, a: View, r: nat, img: Image, img': Image, file: seq<Byte>, va: u64)
    requires |file| < TWO64 && ValidateHeader(file) == Loaded && Clean(file, PhNum(file), 0)
             && img.Keys == Earlier(file, PhNum(file), 0)
    requires StackPage(va, USER_STACK_PAGES) && StackUpTo(img, img', va) && Stuck(status, a, r, img'.Keys, va)
    ensures Stopped(status, a, r, img'.Keys, file)
  {
    hide ValidateHeader, PhNum, Clean, Earlier, StackBelow, Stuck;
    EarlierWithin(file, PhNum(file), va);
    CleanWithin(file, PhNum(file), va);
    assert Spot(file, PhNum(file), va);
  }

  /** The stack pages below `limit` were not in `img`, and are what `img'` has besides. */
  ghost predicate StackUpTo(img: Image, img': Image, limit: int)
  {
    (forall v: u64 :: StackPage(v, USER_STACK_PAGES) && v < limit ==> v !in img)
    && img'.Keys == img.Keys + StackBelow(limit)
  }

  method LoadSegments(vmm: VirtualMemoryManager, pml4: u64, file: seq<Byte>, ghost a: View, ghost own: bool)
    returns (status: ElfLoadStatus, pages: nat, ghost img: Image, ghost leak: nat)
    requires |file| < TWO64 && Verdict(file, Loaded) && Progress(vmm, pml4, a, map[], own, Loaded, 0)
    modifies vmm`forest, vmm.ram, vmm.pmm.bitmap, vmm.pmm`used, vmm.pmm`freeFrames, vmm.pmm`allocatedFrames,
             vmm.pmm`lastSearchFrame
    ensures Progress(vmm, pml4, a, img, own, status, leak) && pages == |img|
            && status in {Loaded, AllocationFailed, MappingFailed}
    ensures ValidateHeader(file) == Loaded
    ensures status == Loaded ==> HasSegments(img, file, PhNum(file)) && OnlyFrom(img, file, PhNum(file), 0)
    ensures status == Loaded ==> Clean(file, PhNum(file), 0) && img.Keys == Earlier(file, PhNum(file), 0)
    ensures status != Loaded && !vmm.pmm.forceAllocFailure ==> Stopped(status, a, vmm.RootFrame(pml4), img.Keys, file)
  {
    hide Clean, Earlier, Stopped, Stuck, UpTo, Progress, HasSegments, OnlyFrom, Ph, ValidateHeader, Verdict, Fits,
         InSegment, HasSegment, Extended, PhNum, EntryIn;
    AcceptedFits(file);
    status, pages, img, leak := Loaded, 0, map[], 0;
    NoSegments(file);
    CleanStart(file);
    for i := 0 to PhNum(file)
      invariant status == Loaded && leak == 0 && pages == |img| && Progress(vmm, pml4, a, img, own, Loaded, 0)
      invariant HasSegments(img, file, i) && OnlyFrom(img, file, i, 0) && Clean(file, i, 0)
                && img.Keys == Earlier(file, i, 0)
    {
      ghost var before := img;
      if Ph(file, i).Load() {
        status, pages, img, leak := LoadSegment(vmm, pml4, file, Ph(file, i), pages, a, img, own);
        if status != Loaded {
          if !vmm.pmm.forceAllocFailure {
            ghost var va: u64 :| InSegment(Ph(file, i), va) && UpTo(before, img, Ph(file, i), va)
                                 && Stuck(status, a, vmm.RootFrame(pml4), img.Keys, va);
            SegmentStopped(status, a, vmm.RootFrame(pml4), before, img, file, i, va);
          }
          return;
        }
        ProgressAnyLeak(vmm, pml4, a, img, own, leak, 0);
        leak := 0;
      } else {
        ExtendedSelf(img);
      }
      NextSegment(before, img, file, i);
      SegmentCounted(before, img, file, i);
    }
  }

  lemma NoSegments(file: seq<Byte>)
    requires |file| < TWO64 && ValidateHeader(file) == Loaded
    ensures HasSegments(map[], file, 0) && OnlyFrom(map[], file, 0, 0)
  {
  }

  lemma ExtendedSelf(img: Image)
    ensures Extended(img, img)
  {
  }

  method LoadStack(vmm: VirtualMemoryManager, pml4: u64, count: nat, ghost a: View, ghost img0: Image, ghost own: bool)
    returns (status: ElfLoadStatus, pages: nat, ghost img: Image, ghost leak: nat)
    requires Progress(vmm, pml4, a, img0, own, Loaded, 0) && count == |img0|
    modifies vmm`forest, vmm.ram, vmm.pmm.bitmap, vmm.pmm`used, vmm.pmm`freeFrames, vmm.pmm`allocatedFrames,
             vmm.pmm`lastSearchFrame
    ensures Progress(vmm, pml4, a, img, own, status, leak) && pages == |img|
            && status in {Loaded, AllocationFailed, MappingFailed}
    ensures Extended(img0, img) && (forall va :: va in img ==> va in img0 || StackPage(va, USER_STACK_PAGES))
    ensures status == Loaded ==> HasStack(img, USER_STACK_PAGES) && StackUpTo(img0, img, LOWER_HALF)
    ensures status != Loaded && !vmm.pmm.forceAllocFailure ==>
              exists va: u64 ::
                StackPage(va, USER_STACK_PAGES) && StackUpTo(img0, img, va)
                && Stuck(status, a, vmm.RootFrame(pml4), img.Keys, va)
  {
    hide Stuck, Progress, StackPage, HasStack, Extended, StackPartly, StackUpTo;
    status, pages, img, leak := Loaded, count, img0, 0;
    StackNone(img0);
    for p := 0 to USER_STACK_PAGES
      invariant status == Loaded && leak == 0 && pages == |img|
      invariant Progress(vmm, pml4, a, img, own, Loaded, 0) && StackPartly(img0, img, p)
    {
      ghost var before := img;
      var va := USER_STACK_BOTTOM + p * PAGE_SIZE;
      StackPageAt(p, va);
      status, img, leak := PlaceStackPage(vmm, pml4, va, a, img, own);
      if status != Loaded {
        StackParts(img0, img, p);
        StackKeys(img0, img, p, va);
        return;
      }
      pages := pages + 1;
      StackStep(img0, before, p, va);
    }
    StackParts(img0, img, USER_STACK_PAGES);
    StackKeys(img0, img, USER_STACK_PAGES, LOWER_HALF);
  }

  method PlaceStackPage(vmm: VirtualMemoryManager, pml4: u64, va: u64, ghost a: View, ghost img: Image, ghost own: bool)
    returns (status: ElfLoadStatus, ghost img': Image, ghost leak: nat)
    requires Progress(vmm, pml4, a, img, own, Loaded, 0) && va % PAGE_SIZE == 0 && va < LOWER_HALF
    modifies vmm`forest, vmm.ram, vmm.pmm.bitmap, vmm.pmm`used, vmm.pmm`freeFrames, vmm.pmm`allocatedFrames,
             vmm.pmm`lastSearchFrame
    ensures Progress(vmm, pml4, a, img', own, status, leak) && status in {Loaded, AllocationFailed, MappingFailed}
    ensures status == Loaded ==> leak == 0 && va !in img && img' == img[va := PageImage(STACK_FLAGS, ZeroBytes())]
    ensures status != Loaded ==>
              img' == img && (!vmm.pmm.forceAllocFailure ==> Stuck(status, a, vmm.RootFrame(pml4), img'.Keys, va))
  {
    hide Stuck, Paid, Accounted, Leaks, PhysicalMemoryManager.Valid, Sound, Held, OwnersElsewhere, Placed, Private;
    var frame;
    status, frame := MapZeroed(vmm, pml4, va, STACK_FLAGS, a, img, own);
    img', leak := img, frame;
    if status == Loaded {
      img', leak := img[va := PageImage(STACK_FLAGS, ZeroBytes())], 0;
      assert img'.Keys == img.Keys + {va};
    }
  }

  ghost predicate StackPartly(img: Image, img': Image, p: int)
  {
    && Extended(img, img') && (forall va :: va in img' ==> va in img || StackPage(va, p)) && HasStack(img', p)
    && (forall va: u64 :: StackPage(va, p) ==> va !in img)
  }

  lemma StackKeys(img: Image, img': Image, p: nat, limit: int)
    requires StackPartly(img, img', p) && p <= USER_STACK_PAGES
    requires limit == if p < USER_STACK_PAGES then USER_STACK_BOTTOM + p * PAGE_SIZE else LOWER_HALF
    ensures StackUpTo(img, img', limit)
  {
    forall v: u64 ensures StackPage(v, p) <==> StackPage(v, USER_STACK_PAGES) && v < limit { }
    forall v: u64 | StackPage(v, p) ensures v < LOWER_HALF { }
  }

  lemma StackPageAt(p: nat, va: int)
    requires p < USER_STACK_PAGES && va == USER_STACK_BOTTOM + p * PAGE_SIZE
    ensures StackPage(va, USER_STACK_PAGES) && va % PAGE_SIZE == 0 && 0 <= va < LOWER_HALF
  {
  }

  lemma StackNone(img: Image)
    ensures StackPartly(img, img, 0)
  {
  }

  lemma StackStep(img: Image, img': Image, p: nat, va: u64)
    requires StackPartly(img, img', p) && p < USER_STACK_PAGES && va == USER_STACK_BOTTOM + p * PAGE_SIZE && va !in img'
    ensures StackPartly(img, img'[va := PageImage(STACK_FLAGS, ZeroBytes())], p + 1)
  {
    forall x: u64 ensures StackPage(x, p + 1) <==> StackPage(x, p) || x == va { }
  }

  lemma StackParts(img: Image, img': Image, p: int)
    requires StackPartly(img, img', p) && p <= USER_STACK_PAGES
    ensures Extended(img, img') && forall va :: va in img' ==> va in img || StackPage(va, USER_STACK_PAGES)
    ensures p == USER_STACK_PAGES ==> HasStack(img', USER_STACK_PAGES)
  {
  }
}
