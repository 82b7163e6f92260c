/** kernel/memory/vmm.cpp, init: the shape and the rights of the tables the kernel builds for itself. */
module BootTables {
  import opened Machine
  import opened PagingTypes
  import opened Ram
  import opened PageTables
  import opened Ownership

  /** The five tables: top level, page-directory-pointer table, directories of the last two gigabytes, first page
      table. */
  datatype Boot = Boot(root: nat, pdpt: nat, pd2: nat, pd1: nat, pt0: nat) {
    predicate Distinct()
    {
      && root != pdpt && root != pd2 && root != pd1 && root != pt0 && pdpt != pd2 && pdpt != pd1 && pdpt != pt0
      && pd2 != pd1 && pd2 != pt0 && pd1 != pt0
    }

    function All(): set<nat>
    {
      {root, pdpt, pd2, pd1, pt0}
    }

    function Forest(): Forest
    {
      map[root := Node(4, 0, 0, root, false), pdpt := Node(3, root, 511, root, false),
          pd2 := Node(2, pdpt, 511, root, false), pd1 := Node(2, pdpt, 510, root, false),
            pt0 := Node(1, pd1, 0, root, false)]
    }
  }

  function BootOf(fs: seq<nat>): Boot
    requires |fs| == 5
  {
    Boot(fs[0], fs[1], fs[2], fs[3], fs[4])
  }

  ghost predicate Blank(mem: Memory, t: nat)
  {
    forall j: Index {:trigger EntryAt(mem, t, j)} :: EntryAt(mem, t, j) == EMPTY
  }

  /** No table but `t` changed. */
  ghost predicate SameEntries(mem: Memory, mem': Memory, t: nat)
  {
    forall u, j: Index {:trigger EntryAt(mem', u, j)} :: u != t ==> EntryAt(mem', u, j) == EntryAt(mem, u, j)
  }

  ghost predicate UpperTables(mem: Memory, b: Boot)
  {
    && (forall j: Index {:trigger EntryAt(mem, b.root, j)} ::
          EntryAt(mem, b.root, j) == if j == 511 then Pte(TableFlagsFor(false), b.pdpt) else EMPTY)
    && (forall j: Index {:trigger EntryAt(mem, b.pdpt, j)} :: EntryAt(mem, b.pdpt, j) ==
          if j == 511 then Pte(TableFlagsFor(false), b.pd2)
          else if j == 510 then Pte(TableFlagsFor(false), b.pd1) else EMPTY)
  }

  ghost predicate LowerTables(mem: Memory, b: Boot, s: Sections)
  {
    && (forall j: Index {:trigger EntryAt(mem, b.pd2, j)} ::
         EntryAt(mem, b.pd2, j) == Pte(KERNEL_LARGE, 0x4_0000 + j * 512))
    && (forall j: Index {:trigger EntryAt(mem, b.pd1, j)} :: EntryAt(mem, b.pd1, j) ==
          if j == 0 then Pte(TableFlagsFor(false), b.pt0) else if j < 256 then Pte(KERNEL_LARGE, j * 512) else EMPTY)
    && (forall j: Index {:trigger EntryAt(mem, b.pt0, j)} :: EntryAt(mem, b.pt0, j) == Pte(SectionFlags(j, s), j))
  }

  const KERNEL_LARGE: Flags := NO_FLAGS.(present := true, writable := true, huge := true, noExecute := true)

  /** Linker boundaries of the kernel image, as virtual addresses. */
  datatype Sections = Sections(textStart: u64, textEnd: u64, rodataStart: u64, rodataEnd: u64,
                               dataStart: u64, dataEnd: u64, bssStart: u64, bssEnd: u64)

  /** Rights of page `f` of the first 2 MiB. */
  function SectionFlags(f: Index, s: Sections): Flags
  {
    var pa := f * PAGE_SIZE;
    var va := 0xFFFF_FFFF_8000_0000 + pa;
    var p := NO_FLAGS.(present := true);
    if s.textStart <= va < s.textEnd then p
    else if s.rodataStart <= va < s.rodataEnd then p.(noExecute := true)
    else if s.dataStart <= va < s.dataEnd then p.(writable := true, noExecute := true)
    else if s.bssStart <= va < s.bssEnd then p.(writable := true, noExecute := true)
    else if pa < 0x10_0000 then p.(writable := true, noExecute := true)
    else if va < s.textStart then p.(writable := true)
    else p.(writable := true, noExecute := true)
  }

  lemma SectionFlagsKernel(f: Index, s: Sections)
    ensures var g := SectionFlags(f, s); g.present && !g.user && !g.huge
  {
  }

  lemma BootSound(mem: Memory, b: Boot, s: Sections)
    requires b.Distinct() && b.All() <= mem.Keys && UpperTables(mem, b) && LowerTables(mem, b, s)
    ensures Sound(mem, b.Forest())
  {
    hide SectionFlags;
    var forest := b.Forest();
    forall t, i: Index | t in forest && forest[t].level >= 2
      ensures EntryOk(mem, forest, t, i)
    {
      BootEntryOk(mem, b, s, t, i);
    }
    forall c | c in forest ensures BackLink(mem, forest, c) { BootBackLink(mem, b, s, c); }
    forall c, j: Index | c in forest ensures UserAbove(mem, forest, c, j) { BootNoUser(mem, b, s, c, j); }
  }

  lemma BootEntryOk(mem: Memory, b: Boot, s: Sections, t: nat, i: Index)
    requires b.Distinct() && UpperTables(mem, b) && LowerTables(mem, b, s) && t in b.Forest()
             && b.Forest()[t].level >= 2
    ensures EntryOk(mem, b.Forest(), t, i)
  {
    hide SectionFlags;
  }

  lemma BootBackLink(mem: Memory, b: Boot, s: Sections, c: nat)
    requires b.Distinct() && UpperTables(mem, b) && LowerTables(mem, b, s) && c in b.Forest()
    ensures BackLink(mem, b.Forest(), c)
  {
    hide SectionFlags;
  }

  lemma BootNoUser(mem: Memory, b: Boot, s: Sections, c: nat, j: Index)
    requires b.Distinct() && UpperTables(mem, b) && LowerTables(mem, b, s) && c in b.Forest()
    ensures UserAbove(mem, b.Forest(), c, j)
  {
    hide SectionFlags;
    SectionFlagsKernel(j, s);
  }

  /** Frames newly taken: distinct, free before, usable. */
  predicate Fresh(used: seq<bool>, usable: seq<bool>, fs: seq<nat>)
  {
    && |usable| == |used|
    && (forall i :: 0 <= i < |fs| ==> fs[i] < |used| && !used[fs[i]] && usable[fs[i]])
    && forall i, j :: 0 <= i < j < |fs| ==> fs[i] != fs[j]
  }

  function MarkedAll(used: seq<bool>, fs: seq<nat>): (r: seq<bool>)
    ensures |r| == |used| && forall k :: 0 <= k < |used| ==> r[k] == (used[k] || k in fs)
  {
    seq(|used|, k requires 0 <= k < |used| => used[k] || k in fs)
  }

  /** The frames `fs` were taken and zeroed, and nothing else happened. */
  ghost predicate Drawn(used0: seq<bool>, used: seq<bool>, usable: seq<bool>, mem0: Memory, mem: Memory, fs: seq<nat>)
  {
    && Fresh(used0, usable, fs) && used == MarkedAll(used0, fs) && mem.Keys == mem0.Keys
    && (forall f :: f in fs ==> f in mem && mem[f] == Zero)
    && forall f :: f in mem && f !in fs ==> mem[f] == mem0[f]
  }

  lemma DrawOne(used0: seq<bool>, used: seq<bool>, usable: seq<bool>, mem0: Memory, mem: Memory, fs: seq<nat>, f: nat)
    requires Drawn(used0, used, usable, mem0, mem, fs) && f < |used| && !used[f] && usable[f] && f in mem
    ensures Drawn(used0, used[f := true], usable, mem0, mem[f := Zero], fs + [f])
  {
    assert forall k :: k in fs + [f] <==> k in fs || k == f;
    assert used[f := true] == MarkedAll(used0, fs + [f]);
  }

  lemma DrawnBoot(used0: seq<bool>, used: seq<bool>, usable: seq<bool>, mem0: Memory, mem: Memory, fs: seq<nat>)
    requires Drawn(used0, used, usable, mem0, mem, fs) && |fs| == 5
    ensures var b := BootOf(fs);
            && b.Distinct() && b.All() <= mem.Keys && Blank(mem, b.root) && Blank(mem, b.pdpt) && Blank(mem, b.pd1)
            && Held(used, usable, b.Forest()) && mem.Keys == mem0.Keys
            && Fresh(used0, usable, fs) && used == MarkedAll(used0, fs)
  {
    var b := BootOf(fs);
    assert forall f :: f in b.All() ==> f in fs;
    forall t, j: Index | t in b.All() ensures EntryAt(mem, t, j) == EMPTY { }
  }

  lemma BlankElsewhere(mem: Memory, mem': Memory, those: set<nat>, t: nat)
    requires OnlyWithin(mem, mem', those) && t !in those && Blank(mem, t)
    ensures Blank(mem', t)
  {
    forall j: Index ensures EntryAt(mem', t, j) == EMPTY { assert EntryAt(mem, t, j) == EMPTY; }
  }

  lemma UpperElsewhere(mem: Memory, mem': Memory, b: Boot)
    requires b.Distinct() && UpperTables(mem, b) && OnlyWithin(mem, mem', {b.pd2, b.pd1, b.pt0})
    ensures UpperTables(mem', b)
  {
    forall t, j: Index | t == b.root || t == b.pdpt ensures EntryAt(mem', t, j) == EntryAt(mem, t, j) { }
  }

  /** Exactly the five frames `fs` were taken, and they hold the boot tables. */
  ghost predicate Booted(used0: seq<bool>, used: seq<bool>, usable: seq<bool>, mem: Memory, forest: Forest,
                         fs: seq<nat>, s: Sections)
  {
    && |fs| == 5 && Fresh(used0, usable, fs) && used == MarkedAll(used0, fs)
    && var b := BootOf(fs); forest == b.Forest() && UpperTables(mem, b) && LowerTables(mem, b, s)
  }

  lemma UnmarkLast(used: seq<bool>, fs: seq<nat>, n: nat)
    requires n < |fs| && (forall i :: 0 <= i < |fs| ==> fs[i] < |used| && !used[fs[i]])
    requires forall i, j :: 0 <= i < j < |fs| ==> fs[i] != fs[j]
    ensures MarkedAll(used, fs[..n + 1])[fs[n] := false] == MarkedAll(used, fs[..n])
  {
    assert fs[..n + 1] == fs[..n] + [fs[n]];
  }

  // ---------------------------------------------------------------- what the boot tables show

  const DIRECT_MAP_BASE: int := 0xFFFF_FFFF_8000_0000

  /** The path of the direct-map address of frame `f`. */
  function DirectPath(f: nat): Path
    requires f < 0x8_0000
  {
    Path(511, 510 + f / 0x4_0000, f / 512 % 512, f % 512)
  }

  /** Frames below 512 MiB, and those of the second gigabyte. */
  predicate InDirectMap(f: int)
  {
    0 <= f < 0x2_0000 || 0x4_0000 <= f < 0x8_0000
  }

  /** The page at path `p` is physical frame `f`. */
  predicate ShowsFrame(leaf: Leaf, p: Path, f: nat)
  {
    match leaf
    case Unmapped => false
    case Small(g, _) => g == f
    case Large(g, _) => g + p.i1 == f
  }

  ghost predicate ShowsDirect(mem: Memory, root: nat, f: nat)
  {
    f < 0x8_0000 && ShowsFrame(Walk(mem, root, DirectPath(f)), DirectPath(f), f)
  }

  /** Adding 0xFFFFFFFF80000000 to a physical address below 2 GiB leads to that memory exactly outside 512 MiB to 1
      GiB: half of the first page directory is kept for devices. */
  lemma DirectMapExactly(mem: Memory, b: Boot, s: Sections, f: nat)
    requires UpperTables(mem, b) && LowerTables(mem, b, s) && f < 0x8_0000
    ensures ShowsDirect(mem, b.root, f) <==> InDirectMap(f)
    ensures !InDirectMap(f) ==> Walk(mem, b.root, DirectPath(f)) == Unmapped
  {
    hide SectionFlags;
    var p := DirectPath(f);
    SectionFlagsKernel(p.i1, s);
    BootWalk(mem, b, s, p);
    if f < 0x4_0000 {
      assert f == f / 512 * 512 + f % 512 && f / 512 < 512;
    } else {
      assert f - 0x4_0000 == (f / 512 - 512) * 512 + f % 512 && f / 512 % 512 == f / 512 - 512;
    }
  }

  /** The first frame at 512 MiB has no direct-map address. */
  lemma FrameOutOfReach(mem: Memory, b: Boot, s: Sections)
    requires UpperTables(mem, b) && LowerTables(mem, b, s)
    ensures Walk(mem, b.root, DirectPath(0x2_0000)) == Unmapped && !ShowsDirect(mem, b.root, 0x2_0000)
  {
    DirectMapExactly(mem, b, s, 0x2_0000);
  }

  /** Every walk through the boot tables. */
  function BootLeaf(p: Path, s: Sections): Leaf
  {
    if p.i4 != 511 || p.i3 < 510 then Unmapped
    else if p.i3 == 511 then Large(0x4_0000 + p.i2 * 512, KERNEL_LARGE)
    else if p.i2 == 0 then Small(p.i1, SectionFlags(p.i1, s))
    else if p.i2 < 256 then Large(p.i2 * 512, KERNEL_LARGE)
    else Unmapped
  }

  lemma BootWalk(mem: Memory, b: Boot, s: Sections, p: Path)
    requires UpperTables(mem, b) && LowerTables(mem, b, s)
    ensures Walk(mem, b.root, p) == BootLeaf(p, s)
  {
    hide SectionFlags;
    SectionFlagsKernel(p.i1, s);
    assert EntryAt(mem, b.root, p.i4).Present() <==> p.i4 == 511;
    assert EntryAt(mem, b.pdpt, p.i3).Present() <==> p.i3 >= 510;
  }

  predicate WritableExecutable(leaf: Leaf)
  {
    leaf != Unmapped && leaf.flags.writable && !leaf.flags.noExecute
  }

  /** Early boot code: between 1 MiB and the start of the text section, outside the other sections. */
  predicate EarlyBoot(f: Index, s: Sections)
  {
    var va := DIRECT_MAP_BASE + f * PAGE_SIZE;
    && 0x10_0000 <= f * PAGE_SIZE && va < s.textStart
    && !(s.rodataStart <= va < s.rodataEnd) && !(s.dataStart <= va < s.dataEnd) && !(s.bssStart <= va < s.bssEnd)
  }

  /** Of all pages the kernel maps, exactly those of the early boot code are both writable and executable. */
  lemma WritableExecutableExactly(mem: Memory, b: Boot, s: Sections, p: Path)
    requires UpperTables(mem, b) && LowerTables(mem, b, s)
    ensures WritableExecutable(Walk(mem, b.root, p)) <==> p.i4 == 511 && p.i3 == 510 && p.i2 == 0 && EarlyBoot(p.i1, s)
  {
    BootWalk(mem, b, s, p);
  }

  /** Page by page: code is not writable, constants are neither writable nor executable, everything else is writable;
      nothing is for user code. */
  lemma KernelRights(mem: Memory, b: Boot, s: Sections, p: Path)
    requires UpperTables(mem, b) && LowerTables(mem, b, s) && Walk(mem, b.root, p) != Unmapped
    ensures var flags := Walk(mem, b.root, p).flags;
            var va := 0xFFFF_FFFF_8000_0000 + p.i1 * 0x1000;
            var first := p.i3 == 510 && p.i2 == 0;
            && !flags.user
            && (first && s.textStart <= va < s.textEnd ==> !flags.writable && !flags.noExecute)
            && (first && !(s.textStart <= va < s.textEnd) && s.rodataStart <= va < s.rodataEnd ==>
                 !flags.writable && flags.noExecute)
            && (!(first && (s.textStart <= va < s.textEnd || s.rodataStart <= va < s.rodataEnd)) ==> flags.writable)
            && (!first ==> flags.noExecute)
  {
    BootWalk(mem, b, s, p);
  }

  /** A kernel linked at 1 MiB whose text starts 64 KiB later: its first page breaks write-xor-execute. */
  lemma EarlyBootPage(mem: Memory, b: Boot)
    requires UpperTables(mem, b) && LowerTables(mem, b, LINKED)
    ensures WritableExecutable(Walk(mem, b.root, DirectPath(0x100)))
  {
    WritableExecutableExactly(mem, b, LINKED, DirectPath(0x100));
  }

  const LINKED: Sections := Sections(DIRECT_MAP_BASE + 0x11_0000, DIRECT_MAP_BASE + 0x14_0000,
                                     DIRECT_MAP_BASE + 0x14_0000, DIRECT_MAP_BASE + 0x15_0000,
                                     DIRECT_MAP_BASE + 0x15_0000, DIRECT_MAP_BASE + 0x16_0000,
                                     DIRECT_MAP_BASE + 0x16_0000, DIRECT_MAP_BASE + 0x18_0000)
}
