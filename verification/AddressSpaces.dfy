/** Whole lives of user address spaces: create, map any number of pages, destroy. */
module AddressSpaces {
  import opened Machine
  import opened PagingTypes
  import opened Ram
  import opened Pmm
  import opened PageTables
  import opened Ownership
  import opened Vmm

  datatype MapRequest = MapRequest(va: u64, flags: Flags)

  /** Everything added since `a` belongs to the lower half of `r`, and exactly that was allocated. */
  ghost predicate GrewOnlyUnder(a: View, b: View, r: nat)
  {
    && (forall x :: x in a.forest ==> x in b.forest && b.forest[x] == a.forest[x])
    && (forall x :: x in b.forest && x !in a.forest ==>
         x == r || (b.forest[x].low && b.forest[x].root == r && b.forest[x].level < 4))
    && TakenForTables(a, b)
  }

  lemma GrewTrans(a: View, b: View, c: View, r: nat)
    requires GrewOnlyUnder(a, b, r) && GrewOnlyUnder(b, c, r)
    ensures GrewOnlyUnder(a, c, r)
  {
    forall f | f in c.forest && f !in a.forest ensures f < |a.used| && !a.used[f] {
      if f !in b.forest { assert f < |b.used| && !b.used[f]; }
    }
  }

  /** `a` after a frame outside the forest was allocated and cleared. */
  function Taken(a: View, f: nat): View
    requires f < |a.used|
  {
    View(a.mem[f := Zero], a.forest, a.used[f := true])
  }

  lemma TakenSound(a: View, f: nat, r: nat)
    requires Sound(a.mem, a.forest) && f < |a.used| && f in a.mem && f !in a.forest
    ensures Sound(Taken(a, f).mem, a.forest)
    ensures LeavesOwned(a.mem, a.forest, r) ==> LeavesOwned(Taken(a, f).mem, a.forest, r)
  {
    var mem' := Taken(a, f).mem;
    forall t, i: Index | t in a.forest ensures EntryAt(mem', t, i) == EntryAt(a.mem, t, i) { }
    forall t, i: Index | t in a.forest && a.forest[t].level >= 2 ensures EntryOk(mem', a.forest, t, i) {
      assert EntryOk(a.mem, a.forest, t, i);
    }
    forall c | c in a.forest
      ensures BackLink(mem', a.forest, c) && (forall j: Index :: UserAbove(mem', a.forest, c, j))
    {
      assert BackLink(a.mem, a.forest, c);
      forall j: Index ensures UserAbove(mem', a.forest, c, j) { assert UserAbove(a.mem, a.forest, c, j); }
    }
  }

  lemma GrewWithLeaf(a: View, f: nat, b: View, r: nat, p: Path, leaf: Leaf, t: nat)
    requires f < |a.used| && !a.used[f] && f !in a.forest && p.i4 < 256 && MapsOnly(Taken(a, f), b, r, p, leaf)
    ensures f !in b.forest
    ensures GrewOnlyUnder(a, View(b.mem, WithLeaf(b.forest, t, p.i1, r, f), b.used), r)
  {
    hide MapsOnly, Walk;
    MapsOnlyParts(Taken(a, f), b, r, p, leaf);
    assert f !in b.forest;
  }

  lemma MapsOnlyParts(a: View, b: View, r: nat, p: Path, leaf: Leaf)
    requires MapsOnly(a, b, r, p, leaf)
    ensures Walk(b.mem, r, p) == leaf
    ensures Grown(a.forest, b.forest) && GrownUnder(a.forest, b.forest, r, p.i4 < 256) && TakenForTables(a, b)
  {
  }

  lemma GrewGivenBack(a: View, f: nat, b: View, r: nat)
    requires f < |a.used| && !a.used[f] && f !in a.forest && Extends(Taken(a, f), b, r, true)
    ensures f !in b.forest && f < |b.used| && b.used[f]
    ensures GrewOnlyUnder(a, View(b.mem, b.forest, b.used[f := false]), r)
  {
  }

  lemma GrewNothing(a: View, r: nat)
    ensures GrewOnlyUnder(a, a, r)
  {
  }

  lemma HeldAfter(used: seq<bool>, usable: seq<bool>, forest: Forest, t: nat, i: Index, r: nat, f: nat)
    requires Held(used, usable, forest) && f < |used| && usable[f]
    ensures f !in forest ==> Held(used[f := true], usable, forest) && Held(used[f := false], usable, forest)
    ensures used[f] ==> Held(used, usable, WithLeaf(forest, t, i, r, f))
  {
  }

  /** Allocates a data frame for the lower half of some address space. */
  method TakeFrame(vmm: VirtualMemoryManager, ghost r: nat) returns (frame: nat)
    requires vmm.Valid()
    modifies vmm.ram, vmm.pmm.bitmap, vmm.pmm`used, vmm.pmm`freeFrames, vmm.pmm`allocatedFrames, vmm.pmm`lastSearchFrame
    ensures vmm.Valid()
            && (old(LeavesOwned(vmm.ram.frames, vmm.forest, r)) ==> LeavesOwned(vmm.ram.frames, vmm.forest, r))
    ensures frame == 0 ==> vmm.Now() == old(vmm.Now())
    ensures frame == 0 <==> vmm.pmm.forceAllocFailure || old(vmm.pmm.freeFrames) == 0
    ensures vmm.pmm.freeFrames == if frame == 0 then old(vmm.pmm.freeFrames) else old(vmm.pmm.freeFrames) - 1
    ensures frame != 0 ==>
              frame !in vmm.forest && frame < |old(vmm.pmm.used)| == |vmm.pmm.usable| && !old(vmm.pmm.used)[frame]
              && vmm.pmm.usable[frame]
    ensures frame != 0 ==> vmm.Now() == Taken(old(vmm.Now()), frame) && frame in old(vmm.ram.frames)
  {
    hide PhysicalMemoryManager.Valid, Sound, LeavesOwned;
    frame := vmm.NewFrame();
    if frame != 0 {
      TakenSound(old(vmm.Now()), frame, r);
      HeldAfter(old(vmm.pmm.used), vmm.pmm.usable, vmm.forest, 0, 0, 0, frame);
    }
  }

  /** The page at `p` of root `r` was not mapped and now is, to a frame that was free; no other translation changed. */
  ghost predicate OnePage(a: View, mem': Memory, r: nat, p: Path, flags: Flags)
  {
    && Walk(a.mem, r, p) == Unmapped && SameElsewhere(a.mem, mem', a.forest, r)
    && (exists f: nat :: f < |a.used| && !a.used[f] && Walk(mem', r, p) == Small(f, flags))
    && forall p' {:trigger Walk(mem', r, p')} :: p' != p ==> Walk(mem', r, p') == Walk(a.mem, r, p')
  }

  lemma TakenSameWalks(a: View, f: nat)
    requires Sound(a.mem, a.forest) && f in a.mem && f < |a.used| && f !in a.forest
    ensures SameWalks(a.mem, Taken(a, f).mem, a.forest)
  {
    hide Sound, Walk;
    forall r, p | IsTable(a.forest, r, 4) ensures Walk(Taken(a, f).mem, r, p) == Walk(a.mem, r, p) {
      DataWriteKeepsWalk(a.mem, a.forest, f, Zero, r, p);
    }
  }

  lemma TakenSameDepth(a: View, f: nat, r: nat, p: Path)
    requires Sound(a.mem, a.forest) && f in a.mem && f < |a.used| && f !in a.forest && IsTable(a.forest, r, 4)
    ensures Depth(Taken(a, f).mem, r, p) == Depth(a.mem, r, p)
  {
    hide Depth;
    var mem' := Taken(a, f).mem;
    forall t, i: Index | t in a.forest && a.forest[t].level >= 2 ensures EntryAt(mem', t, i) == EntryAt(a.mem, t, i) { }
    SameDepth(a.mem, mem', a.forest, r, p);
  }

  lemma MapsOnePage(a: View, f: nat, b: View, r: nat, p: Path, flags: Flags)
    requires f < |a.used| && !a.used[f] && SameWalks(a.mem, Taken(a, f).mem, a.forest) && p.i4 < 256
             && IsTable(a.forest, r, 4)
    requires MapsOnly(Taken(a, f), b, r, p, Small(f, flags))
    ensures OnePage(a, b.mem, r, p, flags)
  {
    hide Walk, ChangedWhereShared;
    var mem := Taken(a, f).mem;
    forall r', p' | IsTable(a.forest, r', 4) && (r' != r || p' != p)
      ensures Walk(b.mem, r', p') == Walk(a.mem, r', p')
    {
      assert Walk(mem, r', p') == Walk(a.mem, r', p');
    }
    assert Walk(mem, r, p) == Walk(a.mem, r, p);
  }

  lemma ExtendsSame(a: View, b: View, c: View, r: nat)
    requires SameWalks(a.mem, b.mem, a.forest) && b.forest == a.forest && Extends(b, c, r, true)
    ensures SameWalks(a.mem, c.mem, a.forest)
  {
    hide Walk;
    forall r', p | IsTable(a.forest, r', 4) ensures Walk(c.mem, r', p) == Walk(a.mem, r', p) {
      assert Walk(b.mem, r', p) == Walk(a.mem, r', p);
    }
  }

  lemma SameWalksAt(mem: Memory, mem': Memory, forest: Forest, r: nat, p: Path)
    requires SameWalks(mem, mem', forest) && IsTable(forest, r, 4)
    ensures Walk(mem', r, p) == Walk(mem, r, p)
  {
    hide Walk;
  }

  /** Whatever came of the request, the other roots' translations stand. */
  lemma RequestSame(a: View, mem': Memory, r: nat, p: Path, flags: Flags)
    requires OnePage(a, mem', r, p, flags) || SameWalks(a.mem, mem', a.forest)
    ensures SameElsewhere(a.mem, mem', a.forest, r)
  {
    hide Walk;
  }

  lemma SameElsewhereTrans(a: View, b: View, mem': Memory, r: nat)
    requires SameElsewhere(a.mem, b.mem, a.forest, r) && SameElsewhere(b.mem, mem', b.forest, r)
             && GrewOnlyUnder(a, b, r)
    ensures SameElsewhere(a.mem, mem', a.forest, r)
  {
    hide Walk;
    forall r', p | IsTable(a.forest, r', 4) && r' != r ensures Walk(mem', r', p) == Walk(a.mem, r', p) {
      assert IsTable(b.forest, r', 4);
      assert Walk(b.mem, r', p) == Walk(a.mem, r', p);
    }
  }

  lemma NothingElsewhere(a: View, r: nat)
    ensures SameElsewhere(a.mem, a.mem, a.forest, r)
  {
  }

  lemma SameElsewhereNew(a: View, mem': Memory, r: nat)
    requires SameElsewhere(a.mem, mem', a.forest, r) && r !in a.forest
    ensures SameWalks(a.mem, mem', a.forest)
  {
    hide Walk;
  }

  lemma FreshSameElsewhere(mem: Memory, mem': Memory, forest: Forest, k: nat, r: nat)
    requires FreshSpace(mem, mem', forest, k, r)
    ensures SameElsewhere(mem, mem', forest, r)
  {
    hide Walk;
  }

  /** Allocates a frame and maps it into the lower half of `pml4`; a frame that cannot be mapped is given back, and no
      translation changes. */
  method MapFresh(vmm: VirtualMemoryManager, pml4: u64, request: MapRequest) returns (status: VmmStatus)
    requires vmm.Valid() && PageAligned(pml4) && pml4 != 0 && pml4 != vmm.root && request.va < LOWER_HALF
    requires IsTable(vmm.forest, pml4 / PAGE_SIZE, 4) && LeavesOwned(vmm.ram.frames, vmm.forest, pml4 / PAGE_SIZE)
    modifies vmm`forest, vmm.ram, vmm.pmm.bitmap, vmm.pmm`used, vmm.pmm`freeFrames, vmm.pmm`allocatedFrames,
             vmm.pmm`lastSearchFrame
    ensures vmm.Valid() && LeavesOwned(vmm.ram.frames, vmm.forest, pml4 / PAGE_SIZE)
    ensures GrewOnlyUnder(old(vmm.Now()), vmm.Now(), pml4 / PAGE_SIZE)
    ensures status == Success ==>
              OnePage(old(vmm.Now()), vmm.ram.frames, pml4 / PAGE_SIZE, PathOf(request.va),
                request.flags.(present := true))
    ensures status != Success ==> SameWalks(old(vmm.ram.frames), vmm.ram.frames, old(vmm.forest))
    ensures status == UnalignedAddress ==> !PageAligned(request.va)
    ensures status in {AlreadyMapped, HugePageCollision} ==>
              Walk(old(vmm.ram.frames), pml4 / PAGE_SIZE, PathOf(request.va)) != Unmapped
    ensures status == OutOfMemory ==>
              vmm.pmm.forceAllocFailure
                || old(vmm.pmm.freeFrames) < 4 - Depth(old(vmm.ram.frames), pml4 / PAGE_SIZE, PathOf(request.va))
    ensures status == Success ==>
              old(vmm.pmm.freeFrames) >= 4 - Depth(old(vmm.ram.frames), pml4 / PAGE_SIZE, PathOf(request.va))
    ensures status in {Success, UnalignedAddress, AlreadyMapped, HugePageCollision, OutOfMemory}
  {
    hide PhysicalMemoryManager.Valid, Sound, LeavesOwned, Extends, MapsOnly, GrewOnlyUnder, Held, OwnersElsewhere,
         SameWalks, OnePage, Walk, PathOf, Depth, Deepened;
    ghost var a := vmm.Now();
    var r, p := pml4 / PAGE_SIZE, PathOf(request.va);
    var frame := TakeFrame(vmm, r);
    GrewNothing(a, r);
    SameWalksSelf(a.mem, a.forest);
    if frame == 0 { return OutOfMemory; }
    ghost var b := vmm.Now();
    TakenSameWalks(a, frame);
    TakenSameDepth(a, frame, r, p);
    assert Walk(b.mem, r, p) == Walk(a.mem, r, p) by { SameWalksAt(a.mem, b.mem, a.forest, r, p); }
    TopIndex(request.va);
    FrameFits(frame);
    status := vmm.MapPageInTable(pml4, request.va, frame * PAGE_SIZE, request.flags);
    ghost var c := vmm.Now();
    if status == Success {
      MapsOnePage(a, frame, c, r, p, request.flags.(present := true));
      RecordLeaf(vmm, r, p, frame, request.flags.(present := true), a);
    } else {
      if status in {InvalidVirtualAddress, UnalignedAddress} { ExtendsNothing(b, r, true); }
      ExtendsSame(a, b, c, r);
      ExtendsKeepsOwners(b, c, r, true);
      GrewGivenBack(a, frame, c, r);
      HeldAfter(c.used, vmm.pmm.usable, c.forest, 0, 0, 0, frame);
      vmm.FreeFrame(frame);
    }
  }

  /** Exactly the data frame `f` joined. */
  predicate Recorded(forest: Forest, forest': Forest, f: nat)
  {
    f !in forest && f in forest' && forest'[f].level == 0 && forest' == forest[f := forest'[f]]
  }

  lemma LeafRecorded(forest: Forest, t: nat, i: Index, r: nat, f: nat, k: nat)
    requires f !in forest && OwnersElsewhere(forest, k) && r != k && IsTable(forest, k, 4)
    ensures OwnersElsewhere(WithLeaf(forest, t, i, r, f), k) && Recorded(forest, WithLeaf(forest, t, i, r, f), f)
    ensures IsTable(WithLeaf(forest, t, i, r, f), k, 4)
  {
  }

  /** Records the ownership of a frame that has just been mapped. */
  ghost method RecordLeaf(vmm: VirtualMemoryManager, r: nat, p: Path, frame: nat, flags: Flags, a: View)
    requires vmm.Valid() && p.i4 < 256 && r != vmm.root / PAGE_SIZE && IsTable(a.forest, r, 4)
    requires frame < |a.used| && !a.used[frame] && frame !in a.forest && frame < |vmm.pmm.usable|
             && vmm.pmm.usable[frame]
    requires Sound(Taken(a, frame).mem, a.forest) && LeavesOwned(Taken(a, frame).mem, a.forest, r)
    requires MapsOnly(Taken(a, frame), vmm.Now(), r, p, Small(frame, flags))
    modifies vmm`forest
    ensures vmm.Valid() && LeavesOwned(vmm.ram.frames, vmm.forest, r) && GrewOnlyUnder(a, vmm.Now(), r)
    ensures Recorded(old(vmm.forest), vmm.forest, frame)
  {
    hide PhysicalMemoryManager.Valid, Sound, LeavesOwned, GrewOnlyUnder, Held, MapsOnly, Walk, SmallRam, InRam, Grown,
         GrownUnder, TakenForTables, OwnersElsewhere, WithLeaf, Recorded;
    var b := vmm.Now();
    MapsOnlyParts(Taken(a, frame), b, r, p, Small(frame, flags));
    var t := SmallWalkReaches(b.mem, r, p);
    ReachedTable(b.mem, b.forest, r, p, t);
    GrewWithLeaf(a, frame, b, r, p, Small(frame, flags), t);
    MappedLeafOwned(Taken(a, frame), b, r, p, frame, flags, t);
    WithLeafSound(b.mem, b.forest, t, p.i1, r, frame);
    HeldAfter(b.used, vmm.pmm.usable, b.forest, t, p.i1, r, frame);
    LeafRecorded(b.forest, t, p.i1, r, frame, vmm.root / PAGE_SIZE);
    vmm.forest := WithLeaf(vmm.forest, t, p.i1, r, frame);
  }

  /** The frames below `r` are exactly those added since the address space was created. */
  lemma OwnedIsAdded(a: View, b: View, r: nat)
    requires Sound(b.mem, b.forest) && IsTable(b.forest, r, 4) && r !in a.forest && GrewOnlyUnder(a, b, r)
    requires Sound(a.mem, a.forest)
    ensures Below(b.forest, r) + {r} == b.forest.Keys - a.forest.Keys
    ensures Without(b.forest, Below(b.forest, r) + {r}) == a.forest
    ensures Cleared(b.used, Below(b.forest, r) + {r}) == a.used
  {
    hide Sound;
    BelowRoot(b.mem, b.forest, r);
    forall x | x in a.forest ensures x !in Below(b.forest, r) {
      if x in Below(b.forest, r) { OldNodesKeepRoots(a, x); }
    }
    var gone := Below(b.forest, r) + {r};
    assert forall x :: x in gone <==> x in b.forest && x !in a.forest;
    assert Without(b.forest, gone).Keys == a.forest.Keys;
    forall f | 0 <= f < |a.used| ensures Cleared(b.used, gone)[f] == a.used[f] { }
  }

  lemma OldNodesKeepRoots(a: View, x: nat)
    requires Sound(a.mem, a.forest) && x in a.forest && a.forest[x].low && a.forest[x].level < 4
    ensures a.forest[x].root in a.forest
  {
    ClimbLow(a.mem, a.forest, x, 4 - a.forest[x].level);
    assert a.forest[Climb(a.forest, x, 4 - a.forest[x].level)].root == Climb(a.forest, x, 4 - a.forest[x].level);
  }

  /** Any sequence of lower-half mapping requests. */
  method MapAll(vmm: VirtualMemoryManager, pml4: u64, requests: seq<MapRequest>)
    requires vmm.Valid() && forall i :: 0 <= i < |requests| ==> requests[i].va < LOWER_HALF
    requires PageAligned(pml4) && pml4 != 0 && pml4 != vmm.root
    requires IsTable(vmm.forest, pml4 / PAGE_SIZE, 4) && LeavesOwned(vmm.ram.frames, vmm.forest, pml4 / PAGE_SIZE)
    modifies vmm`forest, vmm.ram, vmm.pmm.bitmap, vmm.pmm`used, vmm.pmm`freeFrames, vmm.pmm`allocatedFrames,
             vmm.pmm`lastSearchFrame
    ensures vmm.Valid() && LeavesOwned(vmm.ram.frames, vmm.forest, pml4 / PAGE_SIZE)
    ensures GrewOnlyUnder(old(vmm.Now()), vmm.Now(), pml4 / PAGE_SIZE)
    ensures SameElsewhere(old(vmm.ram.frames), vmm.ram.frames, old(vmm.forest), pml4 / PAGE_SIZE)
  {
    hide PhysicalMemoryManager.Valid, Sound, LeavesOwned, GrewOnlyUnder, Held, OwnersElsewhere, SameElsewhere,
         SameWalks, OnePage, Walk, PathOf;
    ghost var a, r := vmm.Now(), pml4 / PAGE_SIZE;
    GrewNothing(a, r);
    SameWalksSelf(a.mem, a.forest);
    NothingElsewhere(a, r);
    for i := 0 to |requests|
      invariant vmm.Valid() && LeavesOwned(vmm.ram.frames, vmm.forest, r)
      invariant GrewOnlyUnder(a, vmm.Now(), r) && SameElsewhere(a.mem, vmm.ram.frames, a.forest, r)
    {
      ghost var b := vmm.Now();
      GrewKeepsRoot(a, b, r);
      var status := MapFresh(vmm, pml4, requests[i]);
      RequestSame(b, vmm.ram.frames, r, PathOf(requests[i].va), requests[i].flags.(present := true));
      SameElsewhereTrans(a, b, vmm.ram.frames, r);
      GrewTrans(a, b, vmm.Now(), r);
    }
  }

  lemma GrewKeepsRoot(a: View, b: View, r: nat)
    requires GrewOnlyUnder(a, b, r) && IsTable(a.forest, r, 4)
    ensures IsTable(b.forest, r, 4)
  {
  }

  lemma GrewRoot(a: View, mem': Memory, r: nat)
    requires r < |a.used| && !a.used[r] && r !in a.forest
    ensures GrewOnlyUnder(a, View(mem', WithRoot(a.forest, r), a.used[r := true]), r)
  {
  }

  /** Create, map any sequence of lower-half pages, destroy: the allocator is back where it started, and every root
      there was translates as it did. */
  method LifeCycle(vmm: VirtualMemoryManager, requests: seq<MapRequest>)
    requires vmm.Valid() && forall i :: 0 <= i < |requests| ==> requests[i].va < LOWER_HALF
    modifies vmm`forest, vmm.ram, vmm.pmm.bitmap, vmm.pmm`used, vmm.pmm`freeFrames, vmm.pmm`allocatedFrames,
             vmm.pmm`lastSearchFrame
    ensures vmm.Valid() && vmm.forest == old(vmm.forest) && vmm.pmm.used == old(vmm.pmm.used)
    ensures vmm.pmm.freeFrames == old(vmm.pmm.freeFrames) && vmm.pmm.allocatedFrames == old(vmm.pmm.allocatedFrames)
    ensures SameWalks(old(vmm.ram.frames), vmm.ram.frames, old(vmm.forest))
  {
    hide SameElsewhere, SameWalks, Walk, Sound, LeavesOwned, GrewOnlyUnder, Held, OwnersElsewhere, FreshSpace, Below;
    ghost var a := vmm.Now();
    var pml4 := vmm.CreateUserAddressSpace();
    SameWalksSelf(a.mem, a.forest);
    if pml4 == 0 { return; }
    ghost var r, b := pml4 / PAGE_SIZE, vmm.Now();
    GrewRoot(a, b.mem, r);
    FreshSameElsewhere(a.mem, b.mem, a.forest, vmm.root / PAGE_SIZE, r);
    MapAll(vmm, pml4, requests);
    ghost var c := vmm.Now();
    SameElsewhereTrans(a, b, c.mem, r);
    GrewTrans(a, b, c, r);
    GrewKeepsRoot(b, c, r);
    OwnedIsAdded(a, c, r);
    vmm.DestroyUserAddressSpace(pml4);
    SameElsewhereTrans(a, c, vmm.ram.frames, r);
    SameElsewhereNew(a, vmm.ram.frames, r);
  }
}
