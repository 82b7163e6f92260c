/** kernel/memory/vmm.cpp: mapping, unmapping and translating pages. */
module Vmm {
  import opened Machine
  import opened PagingTypes
  import opened Ram
  import opened Pmm
  import opened PageTables
  import opened Ownership
  import opened BootTables

  datatype VmmStatus =
    | Success | NotInitialized | InvalidVirtualAddress | UnalignedAddress
    | OutOfMemory | AlreadyMapped | NotMapped | HugePageCollision

  const LOWER_HALF: int := 0x8000_0000_0000

  /** Bits 47 to 63 all equal. */
  predicate Canonical(va: u64)
  {
    va < LOWER_HALF || va >= TWO64 - LOWER_HALF
  }

  function PathOf(va: u64): Path
  {
    Path((va / 0x80_0000_0000) % 512, (va / 0x4000_0000) % 512, (va / 0x20_0000) % 512, (va / 0x1000) % 512)
  }

  /** A canonical address is its indices times what they span, and its offset, above the lower half past the gap. */
  lemma PathSpellsAddress(va: u64)
    requires Canonical(va)
    ensures var p := PathOf(va);
            va == (if va < LOWER_HALF then 0 else 0xFFFF_0000_0000_0000)
                  + p.i4 * 0x80_0000_0000 + p.i3 * 0x4000_0000 + p.i2 * 0x20_0000 + p.i1 * 0x1000 + va % 0x1000
  {
    assert va / 0x20_0000 == (va / 0x1000) / 512 && va / 0x4000_0000 == (va / 0x20_0000) / 512;
    assert va / 0x80_0000_0000 == (va / 0x4000_0000) / 512;
    TopIndex(va);
  }

  /** Distinct canonical pages have distinct paths. */
  lemma PathIdentifiesPage(a: u64, b: u64)
    requires Canonical(a) && Canonical(b) && PathOf(a) == PathOf(b)
    ensures a / PAGE_SIZE == b / PAGE_SIZE
  {
    assert a / 0x20_0000 == (a / 0x1000) / 512 && b / 0x20_0000 == (b / 0x1000) / 512;
    assert a / 0x4000_0000 == (a / 0x20_0000) / 512 && b / 0x4000_0000 == (b / 0x20_0000) / 512;
    assert a / 0x80_0000_0000 == (a / 0x4000_0000) / 512 && b / 0x80_0000_0000 == (b / 0x4000_0000) / 512;
    TopIndex(a);
    TopIndex(b);
  }

  lemma TopIndex(a: u64)
    requires Canonical(a)
    ensures PathOf(a).i4 < 256 <==> a < LOWER_HALF
    ensures a / 0x80_0000_0000 == if a < LOWER_HALF then PathOf(a).i4 else PathOf(a).i4 + 0x1FF_FE00
  {
    var q := a / 0x80_0000_0000;
    if a < LOWER_HALF {
      assert 0 <= q < 256;
    } else {
      assert 0x1FF_FF00 <= q < 0x200_0000;
      assert q == 512 * 0xFFFF + (q - 0x1FF_FE00);
    }
  }

  /** What `PageTableEntry::set` stores: the low 40 bits of the frame number. */
  function EntryFor(paddr: u64, flags: Flags): Pte
  {
    Pte(flags, (paddr / PAGE_SIZE) % 0x100_0000_0000)
  }

  /** The entry carries the flags it is given, and below 2^52 the whole frame number. */
  lemma EntryForParts(paddr: u64, flags: Flags)
    ensures EntryFor(paddr, flags) == Pte(flags, paddr / PAGE_SIZE % 0x100_0000_0000)
    ensures paddr < 0x10_0000_0000_0000 ==> EntryFor(paddr, flags).frame == paddr / PAGE_SIZE
  {
  }

  lemma MapsOnlyShows(a: View, b: View, r: nat, p: Path, leaf: Leaf)
    requires MapsOnly(a, b, r, p, leaf)
    ensures Walk(b.mem, r, p) == leaf
  {
    hide Walk;
  }

  /** The flags of an intermediate entry: present and writable where there was none, and User added where it is asked
      for. */
  predicate LinkFlags(before: Flags, after: Flags, user: bool)
  {
    after == if before.present then before.(user := before.user || user)
             else Flags(true, true, user, false, false, false, false, false, false, false)
  }

  lemma HeldLinked(used: seq<bool>, usable: seq<bool>, forest: Forest, t: nat, i: Index, c: nat)
    requires Held(used, usable, forest) && t in forest && forest[t].level >= 1 && c < |used| && usable[c]
    ensures Held(used[c := true], usable, Linked(forest, t, i, c))
  {
  }

  /** Every frame that can be handed out has a direct-map address, so it is zeroed and reachable: by
      `DirectMapExactly` no usable memory lies between 512 MiB and 1 GiB, or from 2 GiB on. */
  predicate SmallRam(used: seq<bool>, usable: seq<bool>, totalFrames: nat)
  {
    |used| == |usable| == totalFrames && forall f :: 0 <= f < totalFrames && usable[f] ==> InDirectMap(f)
  }

  /** `phys_to_virt` on a frame below 2 GiB gives the address of its direct-map path. */
  lemma DirectPathOf(f: nat)
    requires f < 0x8_0000
    ensures PathOf(DIRECT_MAP_BASE + f * PAGE_SIZE) == DirectPath(f)
  {
    var va := DIRECT_MAP_BASE + f * PAGE_SIZE;
    assert va / 0x1000 == 0xF_FFFF_FFF8_0000 + f;
    assert va / 0x20_0000 == 0x7FF_FFFF_FC00 + f / 512;
    assert va / 0x4000_0000 == 0x3_FFFF_FFFE + f / 0x4_0000;
    assert va / 0x80_0000_0000 == 0x1FF_FFFF;
  }

  class VirtualMemoryManager {
    const pmm: PhysicalMemoryManager
    const ram: PhysicalMemory

    var root: u64
    var cr3: u64
    var initialized: bool

    ghost var forest: Forest

    ghost predicate Valid()
      reads this, pmm, pmm.bitmap, pmm.ram, pmm.tracker
    {
      && initialized && pmm.ram == ram
      && pmm.Valid() && SmallRam(pmm.used, pmm.usable, pmm.totalFrames)
      && InRam(ram.frames, pmm.totalFrames) && Sound(ram.frames, forest)
      && Held(pmm.used, pmm.usable, forest)
      && PageAligned(root) && IsTable(forest, root / PAGE_SIZE, 4) && OwnersElsewhere(forest, root / PAGE_SIZE)
    }

    ghost function Now(): View
      reads this, pmm, ram
    {
      View(ram.frames, forest, pmm.used)
    }

    constructor Create(pmm: PhysicalMemoryManager)
      ensures this.pmm == pmm && this.ram == pmm.ram && !initialized
    {
      this.pmm, ram := pmm, pmm.ram;
      root, cr3, initialized, forest := 0, 0, false, map[];
    }

    /** `alloc_page` as the manager uses it: a zeroed frame, or 0. */
    method NewFrame() returns (frame: nat)
      requires pmm.Valid() && InRam(ram.frames, pmm.totalFrames) && pmm.ram == ram
               && SmallRam(pmm.used, pmm.usable, pmm.totalFrames)
      modifies ram, pmm.bitmap, pmm`used, pmm`freeFrames, pmm`allocatedFrames, pmm`lastSearchFrame
      ensures pmm.Valid()
      ensures frame == 0 ==>
                ram.frames == old(ram.frames) && pmm.used == old(pmm.used) && pmm.freeFrames == old(pmm.freeFrames)
      ensures frame == 0 <==> pmm.forceAllocFailure || old(pmm.freeFrames) == 0
      ensures frame != 0 ==>
                frame < |old(pmm.used)| && !old(pmm.used)[frame] && pmm.usable[frame] && frame in old(ram.frames)
      ensures frame != 0 ==> pmm.used == old(pmm.used)[frame := true] && ram.frames == old(ram.frames)[frame := Zero]
      ensures frame != 0 ==> pmm.freeFrames == old(pmm.freeFrames) - 1
    {
      var pa := pmm.AllocPage();
      frame := pa / PAGE_SIZE;
    }

    /** Allocates a table and links it into the absent entry `i` of `t`. */
    method LinkNewTable(t: nat, i: Index, user: bool) returns (child: nat)
      requires Valid() && t in forest && forest[t].level >= 2 && !EntryAt(ram.frames, t, i).Present()
      requires user ==> AdmitsUser(ram.frames, forest, t)
      modifies this`forest, ram, pmm.bitmap, pmm`used, pmm`freeFrames, pmm`allocatedFrames, pmm`lastSearchFrame
      ensures Valid()
      ensures child == 0 ==> Now() == old(Now()) && (pmm.forceAllocFailure || pmm.freeFrames == 0)
      ensures child != 0 ==>
                child !in old(forest) && child in old(ram.frames) && child < |old(pmm.used)| && !old(pmm.used)[child]
      ensures child != 0 ==>
                Now() ==
                  View(LinkTable(old(ram.frames), t, i, child, TableFlagsFor(user)), Linked(old(forest), t, i, child),
                    old(pmm.used)[child := true])
      ensures pmm.freeFrames == if child == 0 then old(pmm.freeFrames) else old(pmm.freeFrames) - 1
    {
      hide PhysicalMemoryManager.Valid;
      child := NewFrame();
      if child == 0 { return; }
      LinkTableSound(old(ram.frames), forest, t, i, child, TableFlagsFor(user));
      HeldLinked(old(pmm.used), pmm.usable, forest, t, i, child);
      FrameFits(child);
      ram.frames := WithEntry(ram.frames, t, i, EntryFor(child * PAGE_SIZE, TableFlagsFor(user)));
      forest := Linked(forest, t, i, child);
    }

    /** Adds the User bit to a present intermediate entry. */
    method UpgradeEntry(t: nat, i: Index)
      requires Valid() && CanUpgrade(ram.frames, forest, t, i) && AdmitsUser(ram.frames, forest, t)
      modifies ram
      ensures Valid()
      ensures ram.frames == WithEntry(old(ram.frames), t, i, Upgraded(EntryAt(old(ram.frames), t, i)))
    {
      hide PhysicalMemoryManager.Valid, Held;
      UpgradeSound(ram.frames, forest, t, i);
      ram.frames := WithEntry(ram.frames, t, i, Upgraded(EntryAt(ram.frames, t, i)));
    }

    /** One level of `map_page_in_table`: make sure entry `i` of `t` leads to a table. */
    method EnsureTable(t: nat, i: Index, user: bool) returns (ok: bool, child: nat)
      requires Valid() && t in forest && forest[t].level >= 2 && !EntryAt(ram.frames, t, i).Huge()
      requires user ==> AdmitsUser(ram.frames, forest, t)
      modifies this`forest, ram, pmm.bitmap, pmm`used, pmm`freeFrames, pmm`allocatedFrames, pmm`lastSearchFrame
      ensures Valid()
      ensures !ok ==>
                Now() == old(Now()) && !EntryAt(ram.frames, t, i).Present()
                && (pmm.forceAllocFailure || pmm.freeFrames == 0)
      ensures Extends(old(Now()), Now(), old(forest)[t].root, ChildLow(old(forest)[t], i))
      ensures OnlyEntryDiffers(old(ram.frames), ram.frames, old(forest), t, i)
      ensures pmm.freeFrames ==
                if ok && !EntryAt(old(ram.frames), t, i).Present() then old(pmm.freeFrames) - 1 else old(pmm.freeFrames)
      ensures ok && EntryAt(old(ram.frames), t, i).Present() ==> child == EntryAt(old(ram.frames), t, i).frame
      ensures ok && !EntryAt(old(ram.frames), t, i).Present() ==>
                child !in old(forest) && forall j: Index :: !EntryAt(ram.frames, child, j).Present()
      ensures ok ==>
                var e := EntryAt(ram.frames, t, i);
                child == e.frame && Links(e, old(forest)[t].level) && (user ==> e.User())
      ensures ok ==> LinkFlags(EntryAt(old(ram.frames), t, i).flags, EntryAt(ram.frames, t, i).flags, user)
    {
      hide PhysicalMemoryManager.Valid, Held, Sound, Extends;
      var e := EntryAt(ram.frames, t, i);
      TableInMemory(ram.frames, forest, t);
      ExtendsNothing(Now(), forest[t].root, ChildLow(forest[t], i));
      if !e.Present() {
        child := LinkNewTable(t, i, user);
        ok := child != 0;
        if ok {
          EnsureLinked(old(Now()), t, i, child, user);
        }
      } else {
        ok, child := true, e.frame;
        if user && !e.User() {
          EnsureUpgraded(old(Now()), t, i);
          UpgradeEntry(t, i);
        }
      }
    }

    /** The first two levels of `map_page_in_table`: from the root to the page directory. */
    method DescendToPd(r: nat, p: Path, user: bool) returns (ok: bool, t2: nat)
      requires Valid() && IsTable(forest, r, 4)
      modifies this`forest, ram, pmm.bitmap, pmm`used, pmm`freeFrames, pmm`allocatedFrames, pmm`lastSearchFrame
      ensures Valid()
      ensures Extends(old(Now()), Now(), r, p.i4 < 256)
      ensures Charged(old(ram.frames), ram.frames, r, p, old(pmm.freeFrames), pmm.freeFrames)
              && (ok <==> Depth(ram.frames, r, p) >= 2)
      ensures !ok ==> Walk(ram.frames, r, p) == Unmapped && (pmm.forceAllocFailure || pmm.freeFrames == 0)
      ensures ok ==> IsTable(forest, EntryAt(ram.frames, r, p.i4).frame, 3) && IsTable(forest, r, 4)
      ensures ok ==> IsTable(forest, t2, 2) && forest[t2].low == (p.i4 < 256) && (p.i4 < 256 ==> forest[t2].root == r)
      ensures ok && user ==> AdmitsUser(ram.frames, forest, t2)
      ensures ok ==> ReachesPd(ram.frames, r, p, t2)
    {
      hide PhysicalMemoryManager.Valid, Held, Sound, Extends, Charged, Depth, StandsAt, OwnersElsewhere, InRam,
           SmallRam, AdmitsUser, LinkFlags;
      RootNotHuge(ram.frames, forest, r, p.i4);
      RootAdmits(ram.frames, forest, r);
      StandsBelow(ram.frames, r, p, 0);
      ChargedNothing(ram.frames, r, p, pmm.freeFrames);
      ghost var free := pmm.freeFrames;
      var t3;
      ok, t3 := EnsureTable(r, p.i4, user);
      if !ok {
        StuckAt(ram.frames, r, p, 0, r);
        return false, 0;
      }
      ghost var a, b, free' := old(Now()), Now(), pmm.freeFrames;
      ChargedStep(a.mem, a.forest, b.mem, r, p, 0, r, t3, free, free');
      ExtendsKeepsNode(a, b, r, p.i4 < 256, r);
      StepDown(ram.frames, forest, r, p.i4, t3, user);
      ok, t2 := EnsureTable(t3, p.i3, user);
      ghost var c := Now();
      if p.i4 >= 256 { ExtendsAnyRoot(b, c, b.forest[t3].root, r); }
      ExtendsTrans(a, b, c, r, p.i4 < 256);
      if !ok {
        StuckAt(c.mem, r, p, 1, t3);
        return;
      }
      ChargedStep(b.mem, b.forest, c.mem, r, p, 1, t3, t2, free', pmm.freeFrames);
      ChargedTrans(a.mem, b.mem, c.mem, r, p, free, free', pmm.freeFrames);
      ExtendsKeepsNode(b, c, r, p.i4 < 256, t3);
      ExtendsKeepsNode(b, c, r, p.i4 < 256, r);
      StepDown(ram.frames, forest, t3, p.i3, t2, user);
    }

    /** All table levels of `map_page_in_table`: from the root to the page table. */
    method DescendToPt(r: nat, p: Path, user: bool) returns (status: VmmStatus, t1: nat)
      requires Valid() && IsTable(forest, r, 4)
      modifies this`forest, ram, pmm.bitmap, pmm`used, pmm`freeFrames, pmm`allocatedFrames, pmm`lastSearchFrame
      ensures Valid()
      ensures Extends(old(Now()), Now(), r, p.i4 < 256)
      ensures Charged(old(ram.frames), ram.frames, r, p, old(pmm.freeFrames), pmm.freeFrames)
              && (status == Success <==> Depth(ram.frames, r, p) == 3)
      ensures status == Success || status == OutOfMemory || status == HugePageCollision
      ensures status == OutOfMemory ==> pmm.forceAllocFailure || pmm.freeFrames == 0
      ensures status == OutOfMemory ==> Walk(ram.frames, r, p) == Unmapped
      ensures status == HugePageCollision <==> Walk(ram.frames, r, p).Large?
      ensures status == Success ==> IsTable(forest, t1, 1) && Reaches(ram.frames, r, p, t1)
      ensures status == Success && user ==> AdmitsUser(ram.frames, forest, t1)
    {
      hide PhysicalMemoryManager.Valid, Held, Sound, Extends, OwnersElsewhere, InRam, SmallRam, Charged, Depth,
           StandsAt, AdmitsUser, LinkFlags;
      ghost var free := pmm.freeFrames;
      var ok, t2 := DescendToPd(r, p, user);
      if !ok { return OutOfMemory, 0; }
      ghost var a, b, free' := old(Now()), Now(), pmm.freeFrames;
      StandsBelow(b.mem, r, p, t2);
      var e2 := EntryAt(ram.frames, t2, p.i2);
      HugeIsPresent(ram.frames, forest, t2, p.i2);
      if e2.Huge() {
        HugeStops(b.mem, r, p, t2);
        return HugePageCollision, 0;
      }
      ok, t1 := EnsureTable(t2, p.i2, user);
      ghost var c := Now();
      PdPathKept(b.mem, c.mem, b.forest, r, p, t2);
      if p.i4 >= 256 { ExtendsAnyRoot(b, c, b.forest[t2].root, r); }
      ExtendsTrans(a, b, c, r, p.i4 < 256);
      if !ok {
        StuckAt(c.mem, r, p, 2, t2);
        return OutOfMemory, 0;
      }
      ChargedStep(b.mem, b.forest, c.mem, r, p, 2, t2, t1, free', pmm.freeFrames);
      ChargedTrans(a.mem, b.mem, c.mem, r, p, free, free', pmm.freeFrames);
      ExtendsKeepsNode(b, c, r, p.i4 < 256, t2);
      StepDown(ram.frames, forest, t2, p.i2, t1, user);
      status := Success;
    }

    /** The root a mapping call works on: a null address selects the kernel root. */
    ghost function RootFrame(pml4: u64): nat
      reads this
    {
      if pml4 == 0 then root / PAGE_SIZE else pml4 / PAGE_SIZE
    }

    /** Writes the final entry. */
    method WriteLeaf(t: nat, i: Index, e: Pte)
      requires Valid() && IsTable(forest, t, 1) && !EntryAt(ram.frames, t, i).Present()
      requires e.User() ==> AdmitsUser(ram.frames, forest, t)
      modifies ram
      ensures Valid() && t in old(ram.frames) && ram.frames == WithEntry(old(ram.frames), t, i, e)
    {
      hide PhysicalMemoryManager.Valid, Held;
      AbsentHasNoOwner(ram.frames, forest, t, i);
      LeafSound(ram.frames, forest, t, i, e);
      ram.frames := WithEntry(ram.frames, t, i, e);
    }

    /** `map_page_in_table` once its arguments have been checked. */
    method MapChecked(r: nat, p: Path, e: Pte) returns (status: VmmStatus)
      requires Valid() && IsTable(forest, r, 4) && e.Present()
      modifies this`forest, ram, pmm.bitmap, pmm`used, pmm`freeFrames, pmm`allocatedFrames, pmm`lastSearchFrame
      ensures Valid()
      ensures status in {Success, OutOfMemory, HugePageCollision, AlreadyMapped}
      ensures Charged(old(ram.frames), ram.frames, r, p, old(pmm.freeFrames), pmm.freeFrames)
              && (status in {Success, AlreadyMapped} <==> Depth(ram.frames, r, p) == 3)
      ensures status != Success ==> Extends(old(Now()), Now(), r, p.i4 < 256)
      ensures status == Success ==> MapsOnly(old(Now()), Now(), r, p, Small(e.frame, e.flags))
      ensures status == AlreadyMapped <==> Walk(old(ram.frames), r, p).Small?
      ensures status == HugePageCollision <==> Walk(old(ram.frames), r, p).Large?
      ensures status == OutOfMemory ==> pmm.forceAllocFailure || pmm.freeFrames == 0
    {
      hide PhysicalMemoryManager.Valid, Held, Sound, Extends, MapsOnly, Charged, Depth;
      var t1;
      status, t1 := DescendToPt(r, p, e.User());
      ghost var a, b := old(Now()), Now();
      ExtendsKeepsWalk(a, b, r, p.i4 < 256, r, p);
      if status != Success { return; }
      if EntryAt(ram.frames, t1, p.i1).Present() {
        return AlreadyMapped;
      }
      WriteLeaf(t1, p.i1, e);
      ExtendsKeepsNode(a, b, r, p.i4 < 256, r);
      LeafCharged(a.mem, b.mem, b.forest, t1, e, r, p, old(pmm.freeFrames), pmm.freeFrames);
      LeafMaps(a, b, t1, e, r, p);
    }

    /** `map_page_in_table`: maps exactly one page, or changes no translation at all. */
    method MapPageInTable(pml4: u64, va: u64, paddr: u64, flags: Flags) returns (status: VmmStatus)
      requires initialized ==> Valid() && IsTable(forest, RootFrame(pml4), 4)
      modifies this`forest, ram, pmm.bitmap, pmm`used, pmm`freeFrames, pmm`allocatedFrames, pmm`lastSearchFrame
      ensures initialized ==> Valid()
      ensures status == NotInitialized <==> !initialized
      ensures status == InvalidVirtualAddress <==> initialized && !Canonical(va)
      ensures status == UnalignedAddress <==> initialized && Canonical(va) && !(PageAligned(va) && PageAligned(paddr))
      ensures status in {NotInitialized, InvalidVirtualAddress, UnalignedAddress} ==> Now() == old(Now())
      ensures status != NotMapped
              && (status in {NotInitialized, InvalidVirtualAddress, UnalignedAddress} ==>
                   pmm.freeFrames == old(pmm.freeFrames))
      ensures status in {Success, AlreadyMapped, OutOfMemory, HugePageCollision} ==>
                && Charged(old(ram.frames), ram.frames, RootFrame(pml4), PathOf(va), old(pmm.freeFrames),
                     pmm.freeFrames)
                && (status in {Success, AlreadyMapped} <==> Depth(ram.frames, RootFrame(pml4), PathOf(va)) == 3)
      ensures status in {OutOfMemory, HugePageCollision, AlreadyMapped} ==>
                Extends(old(Now()), Now(), RootFrame(pml4), va < LOWER_HALF)
      ensures status == Success ==>
                MapsOnly(old(Now()), Now(), RootFrame(pml4), PathOf(va),
                         Small(paddr / PAGE_SIZE % 0x100_0000_0000, flags.(present := true)))
      ensures status == Success && paddr < 0x10_0000_0000_0000 ==>
                Walk(ram.frames, RootFrame(pml4), PathOf(va)) == Small(paddr / PAGE_SIZE, flags.(present := true))
      ensures initialized && Canonical(va) && PageAligned(va) && PageAligned(paddr) ==>
                && (status == AlreadyMapped <==> Walk(old(ram.frames), RootFrame(pml4), PathOf(va)).Small?)
                && (status == HugePageCollision <==> Walk(old(ram.frames), RootFrame(pml4), PathOf(va)).Large?)
      ensures status == OutOfMemory ==> pmm.forceAllocFailure || pmm.freeFrames == 0
    {
      hide Valid, Extends, MapsOnly, Walk, PathOf, IsTable, EntryFor, Charged, Depth;
      if !initialized { return NotInitialized; }
      if !Canonical(va) { return InvalidVirtualAddress; }
      if va % PAGE_SIZE != 0 || paddr % PAGE_SIZE != 0 { return UnalignedAddress; }
      EntryForParts(paddr, flags.(present := true));
      assert PathOf(va).i4 < 256 <==> va < LOWER_HALF by { TopIndex(va); }
      var r := if pml4 == 0 then root / PAGE_SIZE else pml4 / PAGE_SIZE;
      status := MapChecked(r, PathOf(va), EntryFor(paddr, flags.(present := true)));
      if status == Success {
        MapsOnlyShows(old(Now()), Now(), r, PathOf(va), Small(EntryFor(paddr, flags.(present := true)).frame,
          flags.(present := true)));
      }
    }

    /** `unmap_page`: works on the kernel root. */
    method UnmapPage(va: u64) returns (status: VmmStatus)
      requires initialized ==> Valid()
      modifies ram
      ensures initialized ==> Valid()
      ensures status == NotInitialized <==> !initialized
      ensures status == InvalidVirtualAddress <==> initialized && !Canonical(va)
      ensures status == UnalignedAddress <==> initialized && Canonical(va) && !PageAligned(va)
      ensures initialized && Canonical(va) && PageAligned(va) ==>
                match Walk(old(ram.frames), root / PAGE_SIZE, PathOf(va))
                case Unmapped => status == NotMapped
                case Large(_, _) => status == HugePageCollision
                case Small(_, _) => status == Success
      ensures status == Success ==> UnmapsOnly(old(ram.frames), ram.frames, forest, root / PAGE_SIZE, PathOf(va))
      ensures status != Success ==> ram.frames == old(ram.frames)
    {
      hide PhysicalMemoryManager.Valid, Held, Sound, UnmapsOnly;
      if !initialized { return NotInitialized; }
      if !Canonical(va) { return InvalidVirtualAddress; }
      if va % PAGE_SIZE != 0 { return UnalignedAddress; }
      var r, p := root / PAGE_SIZE, PathOf(va);
      var e4 := EntryAt(ram.frames, r, p.i4);
      if !e4.Present() { return NotMapped; }
      var e3 := EntryAt(ram.frames, e4.frame, p.i3);
      if !e3.Present() { return NotMapped; }
      var e2 := EntryAt(ram.frames, e3.frame, p.i2);
      if !e2.Present() { return NotMapped; }
      if e2.Huge() { return HugePageCollision; }
      var e1 := EntryAt(ram.frames, e2.frame, p.i1);
      if !e1.Present() { return NotMapped; }
      ClearLeaf(r, p, e2.frame);
      return Success;
    }

    method ClearLeaf(r: nat, p: Path, t: nat)
      requires Valid() && r == root / PAGE_SIZE && Reaches(ram.frames, r, p, t)
               && EntryAt(ram.frames, t, p.i1).Present()
      modifies ram
      ensures Valid() && UnmapsOnly(old(ram.frames), ram.frames, forest, r, p)
    {
      hide PhysicalMemoryManager.Valid, Held, UnmapsOnly;
      ReachedTable(ram.frames, forest, r, p, t);
      NoOwnerUnder(ram.frames, forest, r, p, t);
      LeafSound(ram.frames, forest, t, p.i1, EMPTY);
      ClearUnmaps(ram.frames, forest, t, r, p);
      ram.frames := WithEntry(ram.frames, t, p.i1, EMPTY);
    }

    /** The root `translate` walks: CR3 if it is loaded, else the kernel root. */
    ghost function ActiveRoot(): nat
      reads this
    {
      if cr3 != 0 then cr3 / PAGE_SIZE else root / PAGE_SIZE
    }

    /** `translate`: the page found, its physical address and the flags of its own entry. */
    method Translate(va: u64) returns (found: bool, paddr: int, flags: Flags)
      ensures found <==> initialized && Canonical(va) && Walk(ram.frames, ActiveRoot(), PathOf(va)) != Unmapped
      ensures found ==>
                match Walk(ram.frames, ActiveRoot(), PathOf(va))
                case Small(f, fl) => paddr == f * PAGE_SIZE + va % PAGE_SIZE && flags == fl
                case Large(f, fl) => paddr == f * PAGE_SIZE + va % 0x20_0000 && flags == fl
                case Unmapped => false
    {
      if !initialized || !Canonical(va) { return false, 0, NO_FLAGS; }
      var r, p := if cr3 != 0 then cr3 / PAGE_SIZE else root / PAGE_SIZE, PathOf(va);
      var e4 := EntryAt(ram.frames, r, p.i4);
      if !e4.Present() { return false, 0, NO_FLAGS; }
      var e3 := EntryAt(ram.frames, e4.frame, p.i3);
      if !e3.Present() { return false, 0, NO_FLAGS; }
      var e2 := EntryAt(ram.frames, e3.frame, p.i2);
      if !e2.Present() { return false, 0, NO_FLAGS; }
      if e2.Huge() { return true, e2.frame * PAGE_SIZE + va % 0x20_0000, e2.flags; }
      var e1 := EntryAt(ram.frames, e2.frame, p.i1);
      if !e1.Present() { return false, 0, NO_FLAGS; }
      return true, e1.frame * PAGE_SIZE + va % PAGE_SIZE, e1.flags;
    }

    // -------------------------------------------------------------- teardown

    /** Reading an entry of a table frame that is still allocated. */
    method ReadEntry(t: nat, i: Index) returns (e: Pte)
      requires pmm.Allocated(t)
      ensures e == EntryAt(ram.frames, t, i)
    {
      e := EntryAt(ram.frames, t, i);
    }

    method FreeFrame(frame: nat)
      requires pmm.Valid() && pmm.Allocated(frame)
      modifies pmm.bitmap, pmm`used, pmm`freeFrames, pmm`allocatedFrames, pmm`lastSearchFrame
      ensures pmm.Valid() && pmm.used == old(pmm.used)[frame := false]
    {
      assert frame * PAGE_SIZE / PAGE_SIZE == frame && PageAligned(frame * PAGE_SIZE);
      var ok := pmm.FreePage(frame * PAGE_SIZE);
    }

    /** Everything a teardown of `t` needs: the recorded state `mem` is still in place below `t`. */
    ghost predicate ReadyToFree(t: nat, r: nat, mem: Memory)
      reads this, pmm, ram
    {
      && Sound(mem, forest) && LeavesOwned(mem, forest, r) && LowTable(forest, t) && forest[t].root == r
      && Intact(mem, ram.frames, Below(forest, t) + {t}) && InRam(ram.frames, |pmm.used|) && |pmm.used| == |pmm.usable|
      && forall f :: f in Below(forest, t) || f == t ==> pmm.Allocated(f)
    }

    /** The body of a teardown loop: frees what lies below a present entry, then the frame it names. */
    method FreeEntry(t: nat, i: Index, level: nat, ghost r: nat, ghost mem: Memory, e: Pte)
      requires pmm.Valid() && 1 <= level && t in ram.frames && pmm.Allocated(e.frame)
      requires e.frame in forest && forest[e.frame].level == level - 1 && e.frame !in Below(forest, e.frame)
      requires level > 1 ==> ReadyToFree(e.frame, r, mem)
      requires level == 1 ==> Below(forest, e.frame) == {}
      modifies ram, pmm.bitmap, pmm`used, pmm`freeFrames, pmm`allocatedFrames, pmm`lastSearchFrame
      ensures pmm.Valid() && pmm.used == Cleared(old(pmm.used), {e.frame} + Below(forest, e.frame))
      ensures OnlyWithin(old(ram.frames), ram.frames,
                Below(forest, e.frame) + {e.frame} + (if level == 1 then {t} else {}))
      ensures level == 1 ==> ram.frames == WithEntry(old(ram.frames), t, i, EMPTY)
      decreases level, 0, 0
    {
      hide PhysicalMemoryManager.Valid, Below, ReadyToFree;
      if level > 1 {
        FreeBelow(e.frame, level - 1, r, mem);
      } else {
        assert pmm.used == Cleared(pmm.used, {});
      }
      ClearedOne(old(pmm.used), Below(forest, e.frame), e.frame);
      FreeFrame(e.frame);
      assert Below(forest, e.frame) + {e.frame} == {e.frame} + Below(forest, e.frame);
      if level == 1 {
        ram.frames := WithEntry(ram.frames, t, i, EMPTY);
      }
    }

    /** The nested loops of `destroy_user_address_space`, one level per call: children first, then the frame
        that held them. Only the lower 256 entries of a root are visited. */
    method FreeBelow(t: nat, level: nat, ghost r: nat, ghost mem: Memory)
      requires pmm.Valid() && ReadyToFree(t, r, mem) && level == forest[t].level
      modifies ram, pmm.bitmap, pmm`used, pmm`freeFrames, pmm`allocatedFrames, pmm`lastSearchFrame
      ensures pmm.Valid() && pmm.used == Cleared(old(pmm.used), Below(forest, t))
      ensures OnlyWithin(old(ram.frames), ram.frames, Below(forest, t) + {t})
      decreases level, 1
    {
      hide PhysicalMemoryManager.Valid, Below, BelowUpTo, Sound, LeavesOwned;
      var bound := if level == 4 then 256 else 512;
      BelowBounds(mem, forest, t);
      ghost var frames0, used0 := ram.frames, pmm.used;
      assert used0 == Cleared(used0, {});
      for i := 0 to bound
        invariant pmm.Valid() && |pmm.used| == |used0|
        invariant TornDown(forest, t, i, mem, frames0, used0, ram.frames, pmm.used)
      {
        FreeStep(t, i, level, r, mem, frames0, used0);
      }
    }

    /** One iteration of a teardown loop. */
    method FreeStep(t: nat, i: Index, level: nat, ghost r: nat, ghost mem: Memory, ghost frames0: Memory,
                    ghost used0: seq<bool>)
      requires pmm.Valid() && |pmm.used| == |used0| == |pmm.usable| && InRam(frames0, |used0|)
      requires Sound(mem, forest) && LeavesOwned(mem, forest, r) && LowTable(forest, t) && forest[t].root == r
      requires level == forest[t].level && (level == 4 ==> i < 256)
      requires forall f :: f in Below(forest, t) || f == t ==> f < |used0| && used0[f] && pmm.usable[f]
      requires TornDown(forest, t, i, mem, frames0, used0, ram.frames, pmm.used)
      modifies ram, pmm.bitmap, pmm`used, pmm`freeFrames, pmm`allocatedFrames, pmm`lastSearchFrame
      ensures pmm.Valid() && |pmm.used| == |used0|
      ensures TornDown(forest, t, i + 1, mem, frames0, used0, ram.frames, pmm.used)
      decreases level, 0, 1
    {
      hide PhysicalMemoryManager.Valid, Below, BelowUpTo, Sound, LeavesOwned;
      NotBelowItself(forest, t);
      var e := ReadEntry(t, i);
      if e.Present() && (level == 2 || level == 3 ==> !e.Huge()) {
        LowChild(mem, forest, r, t, i);
        BranchUntouched(mem, forest, r, t, i);
        ghost var frames1, used1 := ram.frames, pmm.used;
        assert level > 1 ==> ReadyToFree(e.frame, r, mem);
        assert level == 1 ==> Below(forest, e.frame) == {} by { NothingBelowLeaf(forest, e.frame); }
        FreeEntry(t, i, level, r, mem, e);
        TornDownStep(forest, r, t, i, mem, frames0, used0, frames1, used1, ram.frames, pmm.used);
      } else {
        NotHugeBelow(mem, forest, r, t, i);
        TornDownSkip(forest, r, t, i, mem, frames0, used0, ram.frames, pmm.used);
      }
    }

    /** `destroy_user_address_space`: returns exactly the frames the address space owns. */
    method DestroyUserAddressSpace(pml4: u64)
      requires Valid()
      requires pml4 != 0 && pml4 != root ==>
                 PageAligned(pml4) && IsTable(forest, pml4 / PAGE_SIZE, 4)
                 && LeavesOwned(ram.frames, forest, pml4 / PAGE_SIZE)
      modifies this`forest, ram, pmm.bitmap, pmm`used, pmm`freeFrames, pmm`allocatedFrames, pmm`lastSearchFrame
      ensures Valid()
      ensures pml4 == 0 || pml4 == root ==> Now() == old(Now())
      ensures pml4 != 0 && pml4 != root ==>
                var r := pml4 / PAGE_SIZE;
                var gone := Below(old(forest), r) + {r};
                && forest == Without(old(forest), gone) && pmm.used == Cleared(old(pmm.used), gone)
                && OnlyWithin(old(ram.frames), ram.frames, gone)
                   && SameElsewhere(old(ram.frames), ram.frames, old(forest), r)
    {
      hide PhysicalMemoryManager.Valid, Below, Sound, LeavesOwned, SameElsewhere;
      if pml4 == 0 || pml4 == root { return; }
      var r := pml4 / PAGE_SIZE;
      ghost var mem, before := ram.frames, pmm.used;
      NotBelowItself(forest, r);
      BelowInForest(mem, forest, r);
      FreeBelow(r, 4, r, mem);
      FreeFrame(r);
      ClearedOne(before, Below(forest, r), r);
      WithinSameTables(mem, ram.frames, forest, Below(forest, r) + {r});
      WithoutSound(mem, forest, r, ram.frames);
      WithoutSameElsewhere(mem, forest, r, ram.frames);
      forest := Without(forest, Below(forest, r) + {r});
    }

    /** `create_user_address_space`. */
    method CreateUserAddressSpace() returns (pml4: u64)
      requires initialized ==> Valid()
      modifies this`forest, ram, pmm.bitmap, pmm`used, pmm`freeFrames, pmm`allocatedFrames, pmm`lastSearchFrame
      ensures initialized ==> Valid()
      ensures pml4 == 0 <==> !initialized || pmm.forceAllocFailure || old(pmm.freeFrames) == 0
      ensures pml4 == 0 ==> Now() == old(Now())
      ensures pml4 != 0 ==> pmm.freeFrames == old(pmm.freeFrames) - 1
      ensures pml4 != 0 ==>
                var r := pml4 / PAGE_SIZE;
                && pml4 == r * PAGE_SIZE && r !in old(forest) && r < |old(pmm.used)| && !old(pmm.used)[r]
                && forest == WithRoot(old(forest), r) && pmm.used == old(pmm.used)[r := true]
                && FreshSpace(old(ram.frames), ram.frames, old(forest), root / PAGE_SIZE, r)
                && UserRootEntries(old(ram.frames), ram.frames, root / PAGE_SIZE, r)
                && OnlyWithin(old(ram.frames), ram.frames, {r})
                && LeavesOwned(ram.frames, forest, r)
    {
      hide PhysicalMemoryManager.Valid, Sound, LeavesOwned, FreshSpace;
      if !initialized { return 0; }
      var r := NewFrame();
      if r == 0 { return 0; }
      pml4 := r * PAGE_SIZE;
      assert pml4 / PAGE_SIZE == r;
      var k := root / PAGE_SIZE;
      FillUserRoot(r, k);
      ghost var mem := old(ram.frames);
      assert UserRootEntries(mem, ram.frames, k, r);
      NewRootSound(mem, ram.frames, forest, k, r);
      NewRootOwnsNothing(mem, ram.frames, forest, r);
      NewRootIsFreshSpace(mem, ram.frames, forest, k, r);
      forest := WithRoot(forest, r);
    }

    /** The two loops that clear the lower half of a new root and copy the kernel's upper half. */
    method FillUserRoot(r: nat, k: nat)
      requires r != k && r in ram.frames && k in ram.frames
      modifies ram
      ensures UserRootEntries(old(ram.frames), ram.frames, k, r)
    {
      for i := 0 to 256
        invariant OnlyWithin(old(ram.frames), ram.frames, {r})
        invariant forall j: Index {:trigger EntryAt(ram.frames, r, j)} :: j < i ==> EntryAt(ram.frames, r, j) == EMPTY
      {
        ghost var prev := ram.frames;
        ram.frames := WithEntry(ram.frames, r, i, EMPTY);
        forall j: Index | j <= i ensures EntryAt(ram.frames, r, j) == EMPTY {
          EntryUpdate(prev, r, i, EMPTY, r, j);
        }
      }
      for i := 256 to 512
        invariant OnlyWithin(old(ram.frames), ram.frames, {r})
        invariant forall j: Index {:trigger EntryAt(ram.frames, r, j)} :: j < i ==>
                    EntryAt(ram.frames, r, j) == if j < 256 then EMPTY else EntryAt(old(ram.frames), k, j)
      {
        ghost var prev := ram.frames;
        ram.frames := WithEntry(ram.frames, r, i, EntryAt(ram.frames, k, i));
        forall j: Index | j <= i
          ensures EntryAt(ram.frames, r, j) == if j < 256 then EMPTY else EntryAt(old(ram.frames), k, j)
        {
          EntryUpdate(prev, r, i, EntryAt(prev, k, i), r, j);
        }
      }
    }

    // -------------------------------------------------------------- boot tables

    method PutEntry(t: nat, i: Index, e: Pte)
      requires t in ram.frames
      modifies ram
      ensures ram.frames.Keys == old(ram.frames).Keys
      ensures forall f :: f in ram.frames && f != t ==> ram.frames[f] == old(ram.frames)[f]
      ensures forall j: Index {:trigger EntryAt(ram.frames, t, j)} ::
                EntryAt(ram.frames, t, j) == if j == i then e else EntryAt(old(ram.frames), t, j)
      ensures SameEntries(old(ram.frames), ram.frames, t)
    {
      ram.frames := WithEntry(ram.frames, t, i, e);
    }

    /** Writes entries `[lo, hi)` of a page directory as 2 MiB pages of physical memory from `base` on. */
    method FillLargePages(t: nat, lo: nat, hi: nat, base: nat)
      requires t in ram.frames && lo <= hi <= 512
      modifies ram
      ensures OnlyWithin(old(ram.frames), ram.frames, {t})
      ensures forall j: Index {:trigger EntryAt(ram.frames, t, j)} :: EntryAt(ram.frames, t, j) ==
                if lo <= j < hi then Pte(KERNEL_LARGE, base + j * 512) else EntryAt(old(ram.frames), t, j)
      ensures SameEntries(old(ram.frames), ram.frames, t)
    {
      for i := lo to hi
        invariant OnlyWithin(old(ram.frames), ram.frames, {t})
        invariant forall j: Index {:trigger EntryAt(ram.frames, t, j)} :: EntryAt(ram.frames, t, j) ==
                    if lo <= j < i then Pte(KERNEL_LARGE, base + j * 512) else EntryAt(old(ram.frames), t, j)
      {
        PutEntry(t, i, Pte(KERNEL_LARGE, base + i * 512));
      }
    }

    /** The 512 small pages of the first 2 MiB, each with the rights of its section. */
    method FillFirstPages(t: nat, s: Sections)
      requires t in ram.frames
      modifies ram
      ensures OnlyWithin(old(ram.frames), ram.frames, {t})
      ensures forall j: Index {:trigger EntryAt(ram.frames, t, j)} ::
                EntryAt(ram.frames, t, j) == Pte(SectionFlags(j, s), j)
      ensures SameEntries(old(ram.frames), ram.frames, t)
    {
      hide SectionFlags;
      for i := 0 to 512
        invariant OnlyWithin(old(ram.frames), ram.frames, {t})
        invariant forall j: Index {:trigger EntryAt(ram.frames, t, j)} :: j < i ==>
                    EntryAt(ram.frames, t, j) == Pte(SectionFlags(j, s), j)
      {
        PutEntry(t, i, Pte(SectionFlags(i, s), i));
      }
    }

    /** The top-level table and the page-directory-pointer table. */
    method BuildUpper(b: Boot)
      requires b.Distinct() && b.All() <= ram.frames.Keys && Blank(ram.frames, b.root) && Blank(ram.frames, b.pdpt)
      modifies ram
      ensures UpperTables(ram.frames, b) && OnlyWithin(old(ram.frames), ram.frames, {b.root, b.pdpt})
    {
      PutEntry(b.root, 511, Pte(TableFlagsFor(false), b.pdpt));
      PutEntry(b.pdpt, 511, Pte(TableFlagsFor(false), b.pd2));
      PutEntry(b.pdpt, 510, Pte(TableFlagsFor(false), b.pd1));
    }

    /** The two page directories and the page table of the first 2 MiB. */
    method BuildLower(b: Boot, s: Sections)
      requires b.Distinct() && b.All() <= ram.frames.Keys && Blank(ram.frames, b.pd1)
      modifies ram
      ensures LowerTables(ram.frames, b, s) && OnlyWithin(old(ram.frames), ram.frames, {b.pd2, b.pd1, b.pt0})
    {
      hide SectionFlags;
      FillLargePages(b.pd2, 0, 512, 0x4_0000);
      PutEntry(b.pd1, 0, Pte(TableFlagsFor(false), b.pt0));
      FillFirstPages(b.pt0, s);
      FillLargePages(b.pd1, 1, 256, 0);
    }

    method BuildTables(b: Boot, s: Sections)
      requires b.Distinct() && b.All() <= ram.frames.Keys && Blank(ram.frames, b.root) && Blank(ram.frames, b.pdpt)
               && Blank(ram.frames, b.pd1)
      modifies ram
      ensures UpperTables(ram.frames, b) && LowerTables(ram.frames, b, s) && Sound(ram.frames, b.Forest())
      ensures ram.frames.Keys == old(ram.frames).Keys && LeavesOwned(ram.frames, b.Forest(), b.root)
    {
      hide Sound;
      BuildUpper(b);
      ghost var mem := ram.frames;
      BlankElsewhere(old(ram.frames), mem, {b.root, b.pdpt}, b.pd1);
      BuildLower(b, s);
      UpperElsewhere(mem, ram.frames, b);
      BootSound(ram.frames, b, s);
    }

    /** Five zeroed frames, or none: a failing allocation returns the frames already taken. */
    method AllocTables() returns (ok: bool, fs: seq<nat>)
      requires pmm.Valid() && InRam(ram.frames, pmm.totalFrames) && pmm.ram == ram
               && SmallRam(pmm.used, pmm.usable, pmm.totalFrames)
      modifies ram, pmm.bitmap, pmm`used, pmm`freeFrames, pmm`allocatedFrames, pmm`lastSearchFrame
      ensures pmm.Valid() && |pmm.used| == |old(pmm.used)|
      ensures ok ==> |fs| == 5 && Drawn(old(pmm.used), pmm.used, pmm.usable, old(ram.frames), ram.frames, fs)
      ensures !ok ==> pmm.used == old(pmm.used)
      ensures ok <==> !pmm.forceAllocFailure && old(pmm.freeFrames) >= 5
    {
      assert |pmm.usable| == |pmm.used|;
      fs := [];
      ok := true;
      hide PhysicalMemoryManager.Valid;
      assert Drawn(old(pmm.used), pmm.used, pmm.usable, old(ram.frames), ram.frames, fs);
      while ok && |fs| < 5
        invariant pmm.Valid() && |fs| <= 5 && InRam(ram.frames, pmm.totalFrames)
                  && SmallRam(pmm.used, pmm.usable, pmm.totalFrames)
        invariant Drawn(old(pmm.used), pmm.used, pmm.usable, old(ram.frames), ram.frames, fs)
        invariant pmm.freeFrames == old(pmm.freeFrames) - |fs|
        invariant ok ==> fs == [] || !pmm.forceAllocFailure
        invariant !ok ==> |fs| < 5 && (pmm.forceAllocFailure || pmm.freeFrames == 0)
        decreases 5 - |fs|, ok
      {
        hide Drawn;
        ghost var used, mem := pmm.used, ram.frames;
        var f := NewFrame();
        if f == 0 {
          ok := false;
        } else {
          DrawOne(old(pmm.used), used, pmm.usable, old(ram.frames), mem, fs, f);
          fs := fs + [f];
        }
      }
      if !ok {
        ReturnAll(fs, old(pmm.used));
      }
    }

    /** Frees every frame of `fs`, last taken first. */
    method ReturnAll(fs: seq<nat>, ghost before: seq<bool>)
      requires pmm.Valid() && Fresh(before, pmm.usable, fs) && pmm.used == MarkedAll(before, fs)
      modifies pmm.bitmap, pmm`used, pmm`freeFrames, pmm`allocatedFrames, pmm`lastSearchFrame
      ensures pmm.Valid() && pmm.used == before
    {
      hide PhysicalMemoryManager.Valid;
      var n := |fs|;
      while n > 0
        invariant 0 <= n <= |fs| && pmm.Valid() && pmm.used == MarkedAll(before, fs[..n])
      {
        n := n - 1;
        assert fs[..n + 1] == fs[..n] + [fs[n]];
        FreeFrame(fs[n]);
        UnmarkLast(before, fs, n);
      }
    }

    /** Fills the five tables and switches to them. */
    method Install(fs: seq<nat>, ghost used0: seq<bool>, s: Sections)
      requires pmm.Valid() && InRam(ram.frames, pmm.totalFrames) && pmm.ram == ram
               && SmallRam(pmm.used, pmm.usable, pmm.totalFrames)
      requires |fs| == 5 && Fresh(used0, pmm.usable, fs) && pmm.used == MarkedAll(used0, fs)
      requires var b := BootOf(fs);
               && b.Distinct() && b.All() <= ram.frames.Keys && Held(pmm.used, pmm.usable, b.Forest())
               && Blank(ram.frames, b.root) && Blank(ram.frames, b.pdpt) && Blank(ram.frames, b.pd1)
      modifies this, ram
      ensures Valid() && LeavesOwned(ram.frames, forest, root / PAGE_SIZE)
      ensures Booted(used0, pmm.used, pmm.usable, ram.frames, forest, fs, s) && root == fs[0] * PAGE_SIZE
    {
      hide PhysicalMemoryManager.Valid, Sound, LeavesOwned, LowerTables, UpperTables, Blank, Held;
      var b := BootOf(fs);
      assert b.root < |pmm.used|;
      hide Fresh;
      BuildTables(b, s);
      root, cr3, forest, initialized := b.root * PAGE_SIZE, b.root * PAGE_SIZE, b.Forest(), true;
      assert root / PAGE_SIZE == b.root && PageAligned(root);
    }

    /** Builds the kernel's own address space. A refusal, whether the processor lacks no-execute support or memory
        runs out, leaves every frame as it was. */
    method Init(nxe: bool, s: Sections) returns (ok: bool)
      requires pmm.Valid() && InRam(ram.frames, pmm.totalFrames) && pmm.ram == ram
               && SmallRam(pmm.used, pmm.usable, pmm.totalFrames)
      modifies this, ram, pmm.bitmap, pmm`used, pmm`freeFrames, pmm`allocatedFrames, pmm`lastSearchFrame
      ensures ok <==> nxe && !pmm.forceAllocFailure && old(pmm.freeFrames) >= 5
      ensures ok ==> Valid() && LeavesOwned(ram.frames, forest, root / PAGE_SIZE)
      ensures ok ==>
                exists fs ::
                  Booted(old(pmm.used), pmm.used, pmm.usable, ram.frames, forest, fs, s) && root == fs[0] * PAGE_SIZE
      ensures ok ==>
                forall f :: 0 <= f < 0x8_0000 ==> (ShowsDirect(ram.frames, root / PAGE_SIZE, f) <==> InDirectMap(f))
      ensures !ok ==> !initialized && pmm.Valid() && pmm.used == old(pmm.used)
    {
      hide Drawn, Booted, Sound, LeavesOwned, PhysicalMemoryManager.Valid;
      initialized := false;
      if !nxe { return false; }
      var fs;
      ghost var mem := ram.frames;
      ok, fs := AllocTables();
      if ok {
        DrawnBoot(old(pmm.used), pmm.used, pmm.usable, mem, ram.frames, fs);
        Install(fs, old(pmm.used), s);
        assert Booted(old(pmm.used), pmm.used, pmm.usable, ram.frames, forest, fs, s) && root == fs[0] * PAGE_SIZE;
        BootedShows(old(pmm.used), pmm.used, pmm.usable, ram.frames, forest, fs, s);
      }
    }
  }

  lemma BootedShows(used0: seq<bool>, used: seq<bool>, usable: seq<bool>, mem: Memory, forest: Forest, fs: seq<nat>,
                    s: Sections)
    requires Booted(used0, used, usable, mem, forest, fs, s)
    ensures forall f :: 0 <= f < 0x8_0000 ==> (ShowsDirect(mem, fs[0] * PAGE_SIZE / PAGE_SIZE, f) <==> InDirectMap(f))
  {
    hide UpperTables, LowerTables, ShowsDirect;
    assert fs[0] * PAGE_SIZE / PAGE_SIZE == fs[0];
    forall f | 0 <= f < 0x8_0000
      ensures ShowsDirect(mem, fs[0], f) <==> InDirectMap(f)
    {
      DirectMapExactly(mem, BootOf(fs), s, f);
    }
  }

  lemma BelowInForest(mem: Memory, forest: Forest, r: nat)
    requires Sound(mem, forest) && IsTable(forest, r, 4)
    ensures forall f :: f in Below(forest, r) ==> f in forest && forest[f].level < 4
    ensures LowTable(forest, r) && forest[r].root == r
  {
  }

  lemma WithinSameTables(mem: Memory, mem': Memory, forest: Forest, gone: set<nat>)
    requires OnlyWithin(mem, mem', gone)
    ensures SameTables(mem, mem', Without(forest, gone))
  {
  }

  lemma NothingBelowLeaf(forest: Forest, f: nat)
    ensures f in forest && forest[f].level == 0 ==> Below(forest, f) == {}
  {
  }

  lemma NotHugeBelow(mem: Memory, forest: Forest, r: nat, t: nat, i: Index)
    requires Sound(mem, forest) && LeavesOwned(mem, forest, r) && LowTable(forest, t) && forest[t].root == r
    ensures forest[t].level >= 2 && (forest[t].level == 4 ==> i < 256) ==> !EntryAt(mem, t, i).Huge()
  {
    if forest[t].level >= 2 { assert EntryOk(mem, forest, t, i); }
  }

  lemma ExtendsKeepsWalk(a: View, b: View, root: nat, low: bool, r: nat, p: Path)
    requires Extends(a, b, root, low) && IsTable(a.forest, r, 4)
    ensures Walk(b.mem, r, p) == Walk(a.mem, r, p)
  {
  }

  predicate ReachesPd(mem: Memory, r: nat, p: Path, t: nat)
  {
    var e4 := EntryAt(mem, r, p.i4);
    var e3 := EntryAt(mem, e4.frame, p.i3);
    e4.Present() && e3.Present() && e3.frame == t
  }

  lemma PdPathKept(mem: Memory, mem': Memory, forest: Forest, r: nat, p: Path, t2: nat)
    requires ReachesPd(mem, r, p, t2) && IsTable(forest, r, 4) && IsTable(forest, EntryAt(mem, r, p.i4).frame, 3)
             && IsTable(forest, t2, 2)
    requires OnlyEntryDiffers(mem, mem', forest, t2, p.i2)
    ensures ReachesPd(mem', r, p, t2)
  {
    assert EntryAt(mem', r, p.i4) == EntryAt(mem, r, p.i4);
    var t3 := EntryAt(mem, r, p.i4).frame;
    assert EntryAt(mem', t3, p.i3) == EntryAt(mem, t3, p.i3);
  }

  lemma HugeIsPresent(mem: Memory, forest: Forest, t: nat, i: Index)
    requires Sound(mem, forest) && IsTable(forest, t, 2)
    ensures EntryAt(mem, t, i).Huge() ==> EntryAt(mem, t, i).Present()
  {
    assert EntryOk(mem, forest, t, i);
  }

  lemma ExtendsKeepsNode(a: View, b: View, root: nat, low: bool, x: nat)
    requires Extends(a, b, root, low) && x in a.forest
    ensures x in b.forest && b.forest[x] == a.forest[x]
  {
  }

  /** What a descent along `p` cost: exactly one frame for each table that joined. */
  ghost predicate Charged(mem: Memory, mem': Memory, r: nat, p: Path, free: int, free': int)
  {
    free' + Depth(mem', r, p) == free + Depth(mem, r, p) && (p.i4 < 256 ==> Deepened(mem, mem', r, p))
  }

  lemma ChargedTrans(m0: Memory, m1: Memory, m2: Memory, r: nat, p: Path, f0: int, f1: int, f2: int)
    requires Charged(m0, m1, r, p, f0, f1) && Charged(m1, m2, r, p, f1, f2)
    ensures Charged(m0, m2, r, p, f0, f2)
  {
    hide Depth, Deepened;
    if p.i4 < 256 { DeepenedTrans(m0, m1, m2, r, p); }
  }

  lemma ChargedNothing(mem: Memory, r: nat, p: Path, free: int)
    ensures Charged(mem, mem, r, p, free, free)
  {
    hide Depth, Deepened;
    DeepenedNothing(mem, r, p);
  }

  /** One level ensured. */
  lemma ChargedStep(mem: Memory, forest: Forest, mem': Memory, r: nat, p: Path, d: nat, t: nat, c: nat, free: int,
                    free': int)
    requires Sound(mem, forest) && IsTable(forest, r, 4) && d < 3 && StandsAt(mem, r, p, d, t)
             && IsTable(forest, t, 4 - d)
    requires OnlyEntryDiffers(mem, mem', forest, t, Turn(p, d)) && !EntryAt(mem, t, Turn(p, d)).Huge()
    requires EntryAt(mem', t, Turn(p, d)).frame == c && Links(EntryAt(mem', t, Turn(p, d)), 4 - d)
    requires EntryAt(mem, t, Turn(p, d)).Present() ==> c == EntryAt(mem, t, Turn(p, d)).frame && free' == free
    requires !EntryAt(mem, t, Turn(p, d)).Present() ==>
               c !in forest && free' == free - 1 && forall j: Index :: !EntryAt(mem', c, j).Present()
    ensures Charged(mem, mem', r, p, free, free') && Depth(mem', r, p) >= d + 1
            && (d < 2 ==> StandsAt(mem', r, p, d + 1, c))
  {
    hide Deepened, BackLinked, UserClosed;
    StepDeepens(mem, forest, mem', r, p, d, t);
    FollowLink(mem, forest, r, p.i4);
  }

  /** Writing the leaf costs nothing and builds nothing. */
  lemma LeafCharged(mem: Memory, mem': Memory, forest: Forest, t: nat, e: Pte, r: nat, p: Path, free: int, free': int)
    requires Sound(mem', forest) && IsTable(forest, r, 4) && IsTable(forest, t, 1) && t in mem'
             && Charged(mem, mem', r, p, free, free')
    ensures Charged(mem, WithEntry(mem', t, p.i1, e), r, p, free, free')
            && Depth(WithEntry(mem', t, p.i1, e), r, p) == Depth(mem', r, p)
  {
    hide Depth;
    var mem'' := WithEntry(mem', t, p.i1, e);
    forall u, j: Index | u in forest && forest[u].level >= 2
      ensures EntryAt(mem'', u, j) == EntryAt(mem', u, j)
    {
      EntryUpdate(mem', t, p.i1, e, u, j);
    }
    forall q: Path ensures Depth(mem'', r, q) == Depth(mem', r, q) { SameDepth(mem', mem'', forest, r, q); }
  }

  lemma RootAdmits(mem: Memory, forest: Forest, r: nat)
    requires Sound(mem, forest) && IsTable(forest, r, 4)
    ensures AdmitsUser(mem, forest, r)
  {
  }

  lemma StandsBelow(mem: Memory, r: nat, p: Path, t: nat)
    ensures StandsAt(mem, r, p, 0, r)
    ensures ReachesPd(mem, r, p, t) ==> StandsAt(mem, r, p, 2, t)
  {
  }

  lemma HugeStops(mem: Memory, r: nat, p: Path, t: nat)
    requires StandsAt(mem, r, p, 2, t) && EntryAt(mem, t, p.i2).Huge()
    ensures Depth(mem, r, p) == 2
  {
  }

  lemma StuckAt(mem: Memory, r: nat, p: Path, d: nat, t: nat)
    requires StandsAt(mem, r, p, d, t) && d < 3 && !EntryAt(mem, t, Turn(p, d)).Present()
    ensures Depth(mem, r, p) == d
  {
  }

  function ChildLow(n: Node, i: Index): bool
  {
    if n.level == 4 then i < 256 else n.low
  }

  lemma EnsureLinked(a: View, t: nat, i: Index, c: nat, user: bool)
    requires Sound(a.mem, a.forest) && CanLink(a.mem, a.forest, t, i, c, TableFlagsFor(user)) && c in a.mem
             && c < |a.used| && !a.used[c]
    ensures var b := View(LinkTable(a.mem, t, i, c, TableFlagsFor(user)), Linked(a.forest, t, i, c), a.used[c := true]);
            && Extends(a, b, a.forest[t].root, ChildLow(a.forest[t], i))
            && OnlyEntryDiffers(a.mem, b.mem, a.forest, t, i)
            && EntryAt(b.mem, t, i) == Pte(TableFlagsFor(user), c) && forall j: Index :: !EntryAt(b.mem, c, j).Present()
  {
    LinkTableExtends(a.mem, a.forest, a.used, t, i, c, TableFlagsFor(user));
    LinkTableOnlyEntry(a.mem, a.forest, t, i, c, TableFlagsFor(user));
    LinkTableEntries(a.mem, t, i, c, TableFlagsFor(user), t, i);
    forall j: Index ensures !EntryAt(LinkTable(a.mem, t, i, c, TableFlagsFor(user)), c, j).Present() {
      LinkTableEntries(a.mem, t, i, c, TableFlagsFor(user), c, j);
    }
  }

  lemma EnsureUpgraded(a: View, t: nat, i: Index)
    requires Sound(a.mem, a.forest) && CanUpgrade(a.mem, a.forest, t, i)
    ensures var b := View(WithEntry(a.mem, t, i, Upgraded(EntryAt(a.mem, t, i))), a.forest, a.used);
            && Extends(a, b, a.forest[t].root, ChildLow(a.forest[t], i))
            && OnlyEntryDiffers(a.mem, b.mem, a.forest, t, i)
            && EntryAt(b.mem, t, i) == Upgraded(EntryAt(a.mem, t, i))
  {
    UpgradeExtends(a.mem, a.forest, a.used, t, i, a.forest[t].root, ChildLow(a.forest[t], i));
    WithEntryOnlyEntry(a.mem, a.forest, t, i, Upgraded(EntryAt(a.mem, t, i)));
    EntryUpdate(a.mem, t, i, Upgraded(EntryAt(a.mem, t, i)), t, i);
  }

  /** Two addresses in one page have one path. */
  lemma SamePath(x: u64, y: u64)
    requires x / PAGE_SIZE == y / PAGE_SIZE
    ensures PathOf(x) == PathOf(y)
  {
    assert x / 0x20_0000 == (x / 0x1000) / 512 && y / 0x20_0000 == (y / 0x1000) / 512;
    assert x / 0x4000_0000 == (x / 0x20_0000) / 512 && y / 0x4000_0000 == (y / 0x20_0000) / 512;
    assert x / 0x80_0000_0000 == (x / 0x4000_0000) / 512 && y / 0x80_0000_0000 == (y / 0x4000_0000) / 512;
  }

  /** What was mapped in the active address space, `translate` finds: every byte of the page at its physical place. */
  method MapThenTranslate(vmm: VirtualMemoryManager, pml4: u64, va: u64, paddr: u64, flags: Flags, x: u64)
    returns (status: VmmStatus, found: bool, place: int, rights: Flags)
    requires vmm.Valid() && IsTable(vmm.forest, vmm.RootFrame(pml4), 4) && vmm.RootFrame(pml4) == vmm.ActiveRoot()
    requires x / PAGE_SIZE == va / PAGE_SIZE && Canonical(x) && paddr < 0x10_0000_0000_0000
    modifies vmm`forest, vmm.ram, vmm.pmm.bitmap, vmm.pmm`used, vmm.pmm`freeFrames, vmm.pmm`allocatedFrames,
             vmm.pmm`lastSearchFrame
    ensures vmm.Valid()
    ensures status == Success ==> found && place == paddr + x % PAGE_SIZE && rights == flags.(present := true)
  {
    hide PhysicalMemoryManager.Valid, Sound, Held, OwnersElsewhere, Extends, MapsOnly, PathOf, Charged, Depth, Walk;
    status := vmm.MapPageInTable(pml4, va, paddr, flags);
    SamePath(x, va);
    found, place, rights := vmm.Translate(x);
  }

  /** Frames of the direct map survive the 40-bit truncation of an entry. */
  lemma FrameFits(frame: nat)
    requires frame < 0x8_0000
    ensures forall flags :: EntryFor(frame * PAGE_SIZE, flags) == Pte(flags, frame)
    ensures 0 <= frame * PAGE_SIZE < TWO64 && frame * PAGE_SIZE % PAGE_SIZE == 0
    ensures frame * PAGE_SIZE / PAGE_SIZE % 0x100_0000_0000 == frame
  {
    assert frame * PAGE_SIZE / PAGE_SIZE == frame;
  }
}
