/** kernel/userland/elf_loader.cpp: the ELF64 header and program headers, and their validation. */
module Elf {
  import opened Machine
  import opened PagingTypes
  import opened Ram
  import opened LittleEndian

  datatype ElfLoadStatus =
    | Loaded | NullPointer | BufferTooSmall | InvalidMagic | InvalidClass | InvalidDataEncoding | InvalidMachine
    | InvalidType | InvalidVersion | InvalidHeaderSize | InvalidPhSize | PhTableOutOfBounds | SegmentOutOfBounds
    | IntegerOverflow | KernelAddressOverlap | NoLoadableSegments | EntryNotExecutable
    | AllocationFailed | MappingFailed

  const HEADER_SIZE: nat := 64
  const PH_SIZE: nat := 56
  const PT_LOAD: nat := 1
  const USER_LIMIT: int := 0x8000_0000_0000
  const USER_STACK_TOP: int := 0x7FFF_FFFF_E000
  const USER_STACK_PAGES: int := 4
  const USER_STACK_BOTTOM: int := USER_STACK_TOP - USER_STACK_PAGES * PAGE_SIZE
  const USER_STACK_GUARD: int := USER_STACK_BOTTOM - PAGE_SIZE

  function U64(file: seq<Byte>, i: nat): (r: u64)
    requires i + 8 <= |file|
  {
    WordAt(file, i) + 0x1_0000_0000 * WordAt(file, i + 4)
  }

  /** The fields of a program header the loader looks at. */
  datatype Segment = Segment(kind: nat, flags: nat, offset: u64, vaddr: u64, filesz: u64, memsz: u64) {
    predicate Load() { kind == PT_LOAD }
    predicate Executable() { flags % 2 == 1 }
    predicate Writable() { flags / 2 % 2 == 1 }
  }

  function SegmentAt(file: seq<Byte>, at: nat): Segment
    requires at + PH_SIZE <= |file|
  {
    Segment(WordAt(file, at), WordAt(file, at + 4), U64(file, at + 8), U64(file, at + 16), U64(file, at + 32),
      U64(file, at + 40))
  }

  function Entry(file: seq<Byte>): u64
    requires HEADER_SIZE <= |file|
  {
    U64(file, 24)
  }

  function PhOff(file: seq<Byte>): u64
    requires HEADER_SIZE <= |file|
  {
    U64(file, 32)
  }

  function PhNum(file: seq<Byte>): nat
    requires HEADER_SIZE <= |file|
  {
    HalfAt(file, 56)
  }

  function ValidateHeader(file: seq<Byte>): (status: ElfLoadStatus)
    requires |file| < TWO64
    ensures status == Loaded ==>
              HEADER_SIZE <= |file| && PhNum(file) > 0 && PhOff(file) + PhNum(file) * PH_SIZE <= |file|
    ensures status == PhTableOutOfBounds ==> HEADER_SIZE <= |file| && PhOff(file) + PhNum(file) * PH_SIZE > |file|
  {
    if |file| < HEADER_SIZE then BufferTooSmall
    else if !(file[0] == 0x7F && file[1] == 0x45 && file[2] == 0x4C && file[3] == 0x46) then InvalidMagic
    else if file[4] != 2 then InvalidClass
    else if file[5] != 1 then InvalidDataEncoding
    else if file[6] != 1 || WordAt(file, 20) != 1 then InvalidVersion
    else if HalfAt(file, 18) != 0x3E then InvalidMachine
    else if HalfAt(file, 16) != 2 then InvalidType
    else if HalfAt(file, 52) != HEADER_SIZE then InvalidHeaderSize
    else if HalfAt(file, 54) != PH_SIZE then InvalidPhSize
    else if PhNum(file) == 0 then NoLoadableSegments
    else
      var end := Add64(PhOff(file), PhNum(file) * PH_SIZE);
      if end < PhOff(file) || end > |file| then PhTableOutOfBounds else Loaded
  }

  /** A 64-bit little-endian x86-64 executable whose program header table lies inside the file, stated without
      wrap-around. */
  predicate GoodHeader(file: seq<Byte>)
  {
    && HEADER_SIZE <= |file| && file[..7] == [0x7F, 0x45, 0x4C, 0x46, 2, 1, 1]
    && HalfAt(file, 16) == 2 && HalfAt(file, 18) == 0x3E && WordAt(file, 20) == 1 && HalfAt(file, 52) == HEADER_SIZE
       && HalfAt(file, 54) == PH_SIZE
    && PhNum(file) > 0 && PhOff(file) + PhNum(file) * PH_SIZE <= |file|
  }

  /** The header checks admit exactly the good headers; each refusal names a field that is wrong. */
  lemma HeaderExactly(file: seq<Byte>)
    requires |file| < TWO64
    ensures ValidateHeader(file) == Loaded <==> GoodHeader(file)
    ensures ValidateHeader(file) == BufferTooSmall <==> |file| < HEADER_SIZE
    ensures ValidateHeader(file) == InvalidMagic <==> |file| >= HEADER_SIZE && file[..4] != [0x7F, 0x45, 0x4C, 0x46]
  {
    hide HalfAt, WordAt, U64;
    if |file| >= HEADER_SIZE {
      var ident := file[..7];
      assert forall k :: 0 <= k < 7 ==> ident[k] == file[k];
      var magic := file[..4];
      assert forall k :: 0 <= k < 4 ==> magic[k] == file[k];
    }
  }

  /** Program header `i` of a file whose header is valid. */
  function Ph(file: seq<Byte>, i: nat): Segment
    requires |file| < TWO64 && ValidateHeader(file) == Loaded && i < PhNum(file)
  {
    SegmentAt(file, PhOff(file) + i * PH_SIZE)
  }

  /** The checks on one loadable segment, in 64-bit arithmetic. */
  function SegmentStatus(s: Segment, size: u64): ElfLoadStatus
  {
    var fileEnd := Add64(s.offset, s.filesz);
    var memEnd := Add64(s.vaddr, s.memsz);
    if fileEnd < s.offset || fileEnd > size then SegmentOutOfBounds
    else if s.memsz < s.filesz then IntegerOverflow
    else if memEnd < s.vaddr then IntegerOverflow
    else if s.vaddr < 0x1000 || memEnd > USER_LIMIT then KernelAddressOverlap
    else Loaded
  }

  /** A segment that fits: stated without wrap-around. */
  predicate Fits(s: Segment, size: int)
  {
    s.offset + s.filesz <= size && s.filesz <= s.memsz && 0x1000 <= s.vaddr && s.vaddr + s.memsz <= USER_LIMIT
  }

  /** The wrapping checks admit exactly the segments that fit. */
  lemma ChecksAreExact(s: Segment, size: u64)
    ensures SegmentStatus(s, size) == Loaded <==> Fits(s, size)
  {
  }

  /** The entry point lies in executable segment `i`. */
  predicate EntryIn(file: seq<Byte>, i: nat)
    requires |file| < TWO64 && ValidateHeader(file) == Loaded && i < PhNum(file)
  {
    Ph(file, i).Load() && Ph(file, i).Executable()
    && Ph(file, i).vaddr <= Entry(file) < Ph(file, i).vaddr + Ph(file, i).memsz
  }

  /** What is said about a file: the header's verdict, else that of the first loadable segment that does not fit,
      else whether there is something to load and somewhere to start. */
  ghost predicate Verdict(file: seq<Byte>, status: ElfLoadStatus)
    requires |file| < TWO64
  {
    if ValidateHeader(file) != Loaded then status == ValidateHeader(file)
    else if exists i :: 0 <= i < PhNum(file) && BadAt(file, i) then
      exists i :: FirstBad(file, i) && status == SegmentStatus(Ph(file, i), |file|)
    else if forall i :: 0 <= i < PhNum(file) ==> !Ph(file, i).Load() then status == NoLoadableSegments
    else if forall i :: 0 <= i < PhNum(file) ==> !EntryIn(file, i) then status == EntryNotExecutable
    else status == Loaded
  }

  predicate BadAt(file: seq<Byte>, i: nat)
    requires |file| < TWO64 && ValidateHeader(file) == Loaded && i < PhNum(file)
  {
    Ph(file, i).Load() && !Fits(Ph(file, i), |file|)
  }

  ghost predicate FirstBad(file: seq<Byte>, i: int)
    requires |file| < TWO64 && ValidateHeader(file) == Loaded
  {
    0 <= i < PhNum(file) && BadAt(file, i) && forall j :: 0 <= j < i ==> !BadAt(file, j)
  }

  method ValidateSegments(file: seq<Byte>) returns (status: ElfLoadStatus)
    requires |file| < TWO64
    ensures Verdict(file, status)
  {
    hide HalfAt, WordAt, U64, SegmentAt, ValidateHeader;
    status := ValidateHeader(file);
    if status != Loaded { return; }
    var loads, found := 0, false;
    for i := 0 to PhNum(file)
      invariant loads >= 0 && forall j :: 0 <= j < i ==> !BadAt(file, j)
      invariant loads == 0 <==> forall j :: 0 <= j < i ==> !Ph(file, j).Load()
      invariant !found <==> forall j :: 0 <= j < i ==> !EntryIn(file, j)
    {
      var s := Ph(file, i);
      ChecksAreExact(s, |file|);
      if s.Load() {
        loads := loads + 1;
        status := SegmentStatus(s, |file|);
        if status != Loaded {
          assert FirstBad(file, i);
          return;
        }
        if s.Executable() && s.vaddr <= Entry(file) < Add64(s.vaddr, s.memsz) {
          found := true;
          assert EntryIn(file, i);
        }
      }
    }
    if loads == 0 { return NoLoadableSegments; }
    if !found { return EntryNotExecutable; }
    return Loaded;
  }

  /** An accepted file: every loadable segment fits, and the entry point is in an executable one. */
  lemma AcceptedFits(file: seq<Byte>)
    requires |file| < TWO64 && Verdict(file, Loaded)
    ensures ValidateHeader(file) == Loaded
    ensures forall i :: 0 <= i < PhNum(file) && Ph(file, i).Load() ==> Fits(Ph(file, i), |file|)
    ensures exists i :: 0 <= i < PhNum(file) && EntryIn(file, i)
  {
    hide HalfAt, WordAt, U64, SegmentAt, ValidateHeader;
    if i :| 0 <= i < PhNum(file) && BadAt(file, i) {
      var k :| FirstBad(file, k) && Loaded == SegmentStatus(Ph(file, k), |file|);
      ChecksAreExact(Ph(file, k), |file|);
      assert false;
    }
    forall i | 0 <= i < PhNum(file) && Ph(file, i).Load() ensures Fits(Ph(file, i), |file|) {
      assert !BadAt(file, i);
    }
  }

  // ---------------------------------------------------------------- pages

  function SegmentFlags(s: Segment): Flags
  {
    NO_FLAGS.(present := true, user := true, writable := s.Writable(), noExecute := !s.Executable())
  }

  const STACK_FLAGS: Flags := NO_FLAGS.(present := true, user := true, writable := true, noExecute := true)

  /** The byte a segment puts at address `a`. */
  function SegmentByte(file: seq<Byte>, s: Segment, a: int): Byte
    requires Fits(s, |file|)
  {
    if s.vaddr <= a < s.vaddr + s.filesz then file[s.offset + (a - s.vaddr)] else 0
  }

  function PageContents(file: seq<Byte>, s: Segment, va: int): PageBytes
    requires Fits(s, |file|)
  {
    var bytes := seq(PAGE_SIZE, k requires 0 <= k < PAGE_SIZE => SegmentByte(file, s, va + k));
    assert forall k :: 0 <= k < PAGE_SIZE ==> bytes[k] == SegmentByte(file, s, va + k);
    bytes
  }

  /** The copy into a zeroed page: the overlap of the page with the file-backed part of the segment. */
  method FillPage(file: seq<Byte>, s: Segment, va: int) returns (bytes: PageBytes)
    requires Fits(s, |file|) && va >= 0
    ensures bytes == PageContents(file, s, va)
  {
    bytes := ZeroBytes();
    var pageMax, fileStart, fileEnd := va + PAGE_SIZE, s.vaddr, s.vaddr + s.filesz;
    if pageMax > fileStart && va < fileEnd {
      var copyStart := if va < fileStart then fileStart else va;
      var copyEnd := if pageMax > fileEnd then fileEnd else pageMax;
      var n, pageOffset, fileOffset := copyEnd - copyStart, copyStart - va, s.offset + (copyStart - fileStart);
      bytes := bytes[..pageOffset] + file[fileOffset..fileOffset + n] + bytes[pageOffset + n..];
    }
    forall k | 0 <= k < PAGE_SIZE ensures bytes[k] == SegmentByte(file, s, va + k) { }
  }

  /** The pages a segment occupies. */
  predicate InSegment(s: Segment, va: int)
  {
    va % PAGE_SIZE == 0 && s.vaddr - s.vaddr % PAGE_SIZE <= va < s.vaddr + s.memsz
  }
}
