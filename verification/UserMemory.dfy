/** kernel/userland/user_memory.cpp: checking user pointers against the active page tables. */
module UserMemory {
  import opened Machine
  import opened PagingTypes
  import opened Ram
  import opened PageTables
  import opened Vmm

  const USER_ADDR_MIN: int := 0x1000
  const USER_ADDR_MAX: int := 0x7FFF_FFFF_FFFF
  const MAX_USER_BUFFER_SIZE: int := 16 * 1024 * 1024

  predicate IsUserAddress(a: int)
  {
    USER_ADDR_MIN <= a <= USER_ADDR_MAX
  }

  /** The wrap-around test of the source is kept: `start + length` is computed in 64 bits. */
  predicate IsUserRange(start: u64, length: u64)
  {
    var end := Add64(start, length);
    && length != 0 && length <= MAX_USER_BUFFER_SIZE && IsUserAddress(start)
    && end >= start && Sub64(end, 1) <= USER_ADDR_MAX
  }

  /** The hardware's verdict on a user-mode access to address `a`: the path is present, and every one of its four
      entries admits user access (and writing). */
  ghost predicate Grants(mem: Memory, r: nat, a: u64, write: bool)
  {
    && Walk(mem, r, PathOf(a)) != Unmapped
    && PathRights(mem, r, PathOf(a)).user && (write ==> PathRights(mem, r, PathOf(a)).writable)
  }

  /** The range test admits exactly the intervals of user addresses of at most 16 MiB. */
  lemma RangeIsInterval(start: u64, length: u64)
    ensures IsUserRange(start, length) <==>
              0 < length <= MAX_USER_BUFFER_SIZE && forall a :: start <= a < start + length ==> IsUserAddress(a)
    ensures IsUserRange(start, length) <==>
              0 < length <= 0x100_0000 && 0x1000 <= start && start + length <= 0x8000_0000_0000
  {
    if 0 < length <= MAX_USER_BUFFER_SIZE && forall a :: start <= a < start + length ==> IsUserAddress(a) {
      assert IsUserAddress(start) && IsUserAddress(start + length - 1);
    }
  }

  function PageBase(a: u64): u64
  {
    AlignDown(a, PAGE_SIZE)
  }

  /** All addresses of a page share its path. */
  lemma SamePage(a: u64)
    ensures PathOf(PageBase(a)) == PathOf(a) && PageBase(a) <= a < PageBase(a) + PAGE_SIZE
    ensures PageBase(a) % PAGE_SIZE == 0
  {
    assert PageBase(a) / 0x1000 == a / 0x1000;
    SamePath(PageBase(a), a);
  }

  /** One page of the loop: the flags `translate` reports decide the access for every byte of the page. */
  method CheckPage(vmm: VirtualMemoryManager, va: u64, write: bool) returns (ok: bool)
    requires vmm.Valid() && IsTable(vmm.forest, vmm.ActiveRoot(), 4) && va <= USER_ADDR_MAX
    ensures ok <==> Grants(vmm.ram.frames, vmm.ActiveRoot(), va, write)
  {
    var found, pa, flags := vmm.Translate(va);
    TopIndex(va);
    if found {
      LeafFlagsAreRights(vmm.ram.frames, vmm.forest, vmm.ActiveRoot(), PathOf(va));
    }
    ok := found && flags.present && flags.user && (write ==> flags.writable);
  }

  /** `validate_read_buffer` and `validate_write_buffer`: a buffer is accepted exactly when the hardware would let
      user code access every one of its bytes. */
  method ValidateBuffer(vmm: VirtualMemoryManager, start: u64, length: u64, write: bool) returns (ok: bool)
    requires vmm.Valid() && IsTable(vmm.forest, vmm.ActiveRoot(), 4)
    ensures ok <==> 0 < length <= 0x100_0000 && 0x1000 <= start && start + length <= 0x8000_0000_0000
                    && forall a :: start <= a < start + length ==> Grants(vmm.ram.frames, vmm.ActiveRoot(), a, write)
  {
    hide VirtualMemoryManager.Valid, Grants, PathOf, PageBase;
    RangeIsInterval(start, length);
    if start == 0 || length == 0 || !IsUserRange(start, length) { return false; }
    var end := start + length;
    ghost var mem, r := vmm.ram.frames, vmm.ActiveRoot();
    var va, pageEnd := PageBase(start), PageBase(end + PAGE_SIZE - 1);
    SamePage(start);
    SamePage(end + PAGE_SIZE - 1);
    Rounding(va, pageEnd, end);
    while va < pageEnd
      invariant va % PAGE_SIZE == 0 && PageBase(start) <= va <= pageEnd
      invariant forall a :: start <= a < end && a < va ==> Grants(mem, r, a, write)
    {
      var granted := CheckPage(vmm, va, write);
      PageDecides(mem, r, va, write);
      if !granted {
        assert !Grants(mem, r, if va < start then start else va, write);
        return false;
      }
      Rounding(va + PAGE_SIZE, pageEnd, end);
      va := va + PAGE_SIZE;
    }
    return true;
  }

  /** Page-aligned positions and the rounded end. */
  lemma Rounding(va: int, pageEnd: int, end: int)
    requires va % PAGE_SIZE == 0 && pageEnd % PAGE_SIZE == 0 && pageEnd <= end + PAGE_SIZE - 1 < pageEnd + PAGE_SIZE
    ensures va - PAGE_SIZE < pageEnd ==> va <= pageEnd
    ensures va < pageEnd ==> va < end
    ensures end <= pageEnd
  {
  }

  lemma SamePageGrants(mem: Memory, r: nat, a: u64, write: bool)
    ensures Grants(mem, r, a, write) <==> Grants(mem, r, PageBase(a), write)
  {
    SamePage(a);
  }

  lemma PageDecides(mem: Memory, r: nat, va: u64, write: bool)
    requires va % PAGE_SIZE == 0 && va + PAGE_SIZE <= TWO64
    ensures forall a: u64 :: va <= a < va + PAGE_SIZE ==> (Grants(mem, r, a, write) <==> Grants(mem, r, va, write))
  {
    hide Grants;
    forall a: u64 | va <= a < va + PAGE_SIZE ensures Grants(mem, r, a, write) <==> Grants(mem, r, va, write)
    {
      SamePageGrants(mem, r, a, write);
      assert PageBase(a) == va;
    }
  }

  /** The byte user code would read at `a`. */
  ghost function ByteAt(mem: Memory, r: nat, a: u64): Byte
  {
    match Walk(mem, r, PathOf(a))
    case Small(f, _) => if f in mem then AsBytes(mem[f])[a % PAGE_SIZE] else 0
    case _ => 0
  }

  ghost predicate Readable(mem: Memory, r: nat, a: int)
  {
    IsUserAddress(a) && Grants(mem, r, a, false)
  }

  /** A terminated string of length `n` at `start`, every byte of it readable by user code. */
  ghost predicate UserString(mem: Memory, r: nat, start: u64, n: nat)
  {
    && 0x1000 <= start && start + n < 0x8000_0000_0000
    && (forall a :: start <= a <= start + n ==> Readable(mem, r, a))
    && (forall a :: start <= a < start + n ==> ByteAt(mem, r, a) != 0) && ByteAt(mem, r, start + n) == 0
  }

  /** Once a byte is unreadable, no string covers it; before that, every byte was a character. */
  lemma NoString(mem: Memory, r: nat, start: u64, len: nat, n: nat)
    requires forall a :: start <= a < start + len ==> Readable(mem, r, a) && ByteAt(mem, r, a) != 0
    requires !Readable(mem, r, start + len) || n < len
    ensures !UserString(mem, r, start, n)
  {
    if n < len {
      assert Readable(mem, r, start + n);
    }
  }

  lemma SoundNow(vmm: VirtualMemoryManager)
    requires vmm.Valid()
    ensures Sound(vmm.ram.frames, vmm.forest) && vmm.initialized
  {
  }

  /** Reading through a pointer whose page has just been checked. */
  method ReadByte(vmm: VirtualMemoryManager, a: u64) returns (b: Byte)
    requires vmm.Valid() && IsTable(vmm.forest, vmm.ActiveRoot(), 4) && a <= USER_ADDR_MAX
    requires Grants(vmm.ram.frames, vmm.ActiveRoot(), a, false)
    ensures b == ByteAt(vmm.ram.frames, vmm.ActiveRoot(), a)
  {
    hide PathOf, VirtualMemoryManager.Valid, Walk, PathRights;
    SoundNow(vmm);
    var found, pa, flags := vmm.Translate(a);
    TopIndex(a);
    LeafFlagsAreRights(vmm.ram.frames, vmm.forest, vmm.ActiveRoot(), PathOf(a));
    var f, off := pa / PAGE_SIZE, pa % PAGE_SIZE;
    b := if f in vmm.ram.frames then AsBytes(vmm.ram.frames[f])[off] else 0;
  }

  /** `validate_string`: accepted exactly when a terminated user string shorter than `maxLen` starts there, and the
      length reported is its length; no byte is read before its page has been checked. */
  method ValidateString(vmm: VirtualMemoryManager, start: u64, maxLen: u64) returns (ok: bool, len: nat)
    requires vmm.Valid() && IsTable(vmm.forest, vmm.ActiveRoot(), 4)
    ensures ok ==> len < maxLen && UserString(vmm.ram.frames, vmm.ActiveRoot(), start, len)
    ensures !ok ==> forall n: nat :: n < maxLen ==> !UserString(vmm.ram.frames, vmm.ActiveRoot(), start, n)
  {
    hide VirtualMemoryManager.Valid, Grants, ByteAt, UserString, PageBase, PathOf;
    ghost var mem, r := vmm.ram.frames, vmm.ActiveRoot();
    len := 0;
    if start == 0 || maxLen == 0 || !IsUserAddress(start) {
      forall n: nat ensures !UserString(mem, r, start, n) || maxLen == 0 {
        if maxLen != 0 { NoString(mem, r, start, 0, n); }
      }
      return false, 0;
    }
    while len < maxLen
      invariant 0 <= len <= maxLen && start + len <= USER_ADDR_MAX + 1
      invariant forall a :: start <= a < start + len ==> Readable(mem, r, a) && ByteAt(mem, r, a) != 0
    {
      var a := start + len;
      var readable := false;
      if a <= USER_ADDR_MAX {
        SamePage(a);
        SamePageGrants(mem, r, a, false);
        readable := CheckPage(vmm, PageBase(a), false);
      }
      if !readable {
        forall n: nat ensures !UserString(mem, r, start, n) { NoString(mem, r, start, len, n); }
        return false, len;
      }
      var b := ReadByte(vmm, a);
      if b == 0 {
        StringFound(mem, r, start, len);
        return true, len;
      }
      len := len + 1;
    }
    forall n: nat | n < maxLen ensures !UserString(mem, r, start, n) { NoString(mem, r, start, len, n); }
    return false, len;
  }

  lemma StringFound(mem: Memory, r: nat, start: u64, len: nat)
    requires forall a :: start <= a < start + len ==> Readable(mem, r, a) && ByteAt(mem, r, a) != 0
    requires Readable(mem, r, start + len) && ByteAt(mem, r, start + len) == 0
    ensures UserString(mem, r, start, len)
  {
    hide Grants, ByteAt;
    assert Readable(mem, r, start);
  }
}
