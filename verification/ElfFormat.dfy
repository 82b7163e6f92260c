/** The ELF64 layout in the file's own bytes: what the loader's reading of headers means. */
module ElfFormat {
  import opened Machine
  import opened Ram
  import opened LittleEndian
  import opened Elf

  /** A little-endian number of any length. */
  function Number(bytes: seq<Byte>): nat
  {
    if bytes == [] then 0 else bytes[0] as int + 0x100 * Number(bytes[1..])
  }

  lemma NumberOfTwo(s: seq<Byte>, i: nat)
    requires i + 2 <= |s|
    ensures HalfAt(s, i) == Number(s[i..i + 2])
  {
    var b := s[i..i + 2];
    assert b[1..][1..] == [] && b[1..][0] == s[i + 1];
    assert Number(b[1..]) == s[i + 1] as int;
  }

  lemma NumberOfFour(s: seq<Byte>, i: nat)
    requires i + 4 <= |s|
    ensures WordAt(s, i) == Number(s[i..i + 4])
  {
    var b := s[i..i + 4];
    assert b[1..] == s[i + 1..i + 4] && s[i + 1..i + 4][1..] == s[i + 2..i + 4];
    NumberOfTwo(s, i + 2);
    assert Number(s[i + 1..i + 4]) == s[i + 1] as int + 0x100 * Number(s[i + 2..i + 4]);
  }

  lemma NumberOfEight(s: seq<Byte>, i: nat)
    requires i + 8 <= |s|
    ensures U64(s, i) == Number(s[i..i + 8])
  {
    hide WordAt;
    NumberOfFour(s, i);
    NumberOfFour(s, i + 4);
    assert s[i..i + 8] == s[i..i + 4] + s[i + 4..i + 8];
    NumberOfRow(s[i..i + 4], s[i + 4..i + 8]);
  }

  lemma NumberOfRow(a: seq<Byte>, b: seq<Byte>)
    requires |a| == 4
    ensures Number(a + b) == Number(a) + 0x1_0000_0000 * Number(b)
  {
    assert (a + b)[1..] == a[1..] + b && (a[1..] + b)[1..] == a[2..] + b && (a[2..] + b)[1..] == a[3..] + b;
    assert (a[3..] + b)[1..] == b && a[1..][1..] == a[2..] && a[2..][1..] == a[3..] && a[3..][1..] == [];
    assert Number(a[3..] + b) == a[3] as int + 0x100 * Number(b) && Number(a[3..]) == a[3] as int;
    assert Number(a[2..] + b) == a[2] as int + 0x100 * Number(a[3..] + b);
    assert Number(a[2..]) == a[2] as int + 0x100 * Number(a[3..]);
    assert Number(a[1..] + b) == a[1] as int + 0x100 * Number(a[2..] + b);
    assert Number(a[1..]) == a[1] as int + 0x100 * Number(a[2..]);
  }

  lemma {:induction false} OddExactly(bytes: seq<Byte>)
    requires |bytes| > 0
    ensures Number(bytes) % 2 == bytes[0] as int % 2 && Number(bytes) / 2 % 2 == bytes[0] as int / 2 % 2
  {
    var rest := Number(bytes[1..]);
    assert Number(bytes) == bytes[0] as int + 2 * (0x80 * rest);
    assert Number(bytes) / 2 == bytes[0] as int / 2 + 2 * (0x40 * rest);
  }

  /** Where the header says things: entry point at byte 24, program headers from the offset at byte 32 on, their number
      at byte 56. */
  lemma HeaderRead(file: seq<Byte>)
    requires 64 <= |file|
    ensures Entry(file) == Number(file[24..32]) && PhOff(file) == Number(file[32..40])
            && PhNum(file) == Number(file[56..58])
  {
    hide U64, HalfAt;
    NumberOfEight(file, 24);
    NumberOfEight(file, 32);
    NumberOfTwo(file, 56);
  }

  /** Where a program header says things: 56 bytes each; type, flags, offset, address, file size and memory size at
      bytes 0, 4, 8, 16, 32 and 40. */
  lemma ProgramHeaderRead(file: seq<Byte>, i: nat)
    requires |file| < TWO64 && ValidateHeader(file) == Loaded && i < PhNum(file)
    ensures 64 <= |file|
    ensures var at, s := Number(file[32..40]) + 56 * i, Ph(file, i);
            && at + 56 <= |file|
            && (s.Load() <==> Number(file[at..at + 4]) == 1)
            && s.offset == Number(file[at + 8..at + 16]) && s.vaddr == Number(file[at + 16..at + 24])
            && s.filesz == Number(file[at + 32..at + 40]) && s.memsz == Number(file[at + 40..at + 48])
            && (s.Executable() <==> file[at + 4] as int % 2 == 1)
            && (s.Writable() <==> file[at + 4] as int / 2 % 2 == 1)
  {
    hide U64, WordAt, HalfAt, ValidateHeader;
    HeaderInside(file);
    HeaderRead(file);
    var at := PhOff(file) + i * PH_SIZE;
    TableInside(PhOff(file), PhNum(file), i, |file|);
    FieldsRead(file, at);
  }

  lemma HeaderInside(file: seq<Byte>)
    requires |file| < TWO64 && ValidateHeader(file) == Loaded
    ensures 64 <= |file| && PhOff(file) + PhNum(file) * PH_SIZE <= |file|
  {
  }

  lemma TableInside(off: nat, n: nat, i: nat, size: nat)
    requires off + n * PH_SIZE <= size && i < n
    ensures off + i * PH_SIZE + 56 <= size && i * PH_SIZE == 56 * i
  {
  }

  lemma FieldsRead(file: seq<Byte>, at: nat)
    requires at + PH_SIZE <= |file|
    ensures var s := SegmentAt(file, at);
            && (s.Load() <==> Number(file[at..at + 4]) == 1)
            && s.offset == Number(file[at + 8..at + 16]) && s.vaddr == Number(file[at + 16..at + 24])
            && s.filesz == Number(file[at + 32..at + 40]) && s.memsz == Number(file[at + 40..at + 48])
            && (s.Executable() <==> file[at + 4] as int % 2 == 1)
            && (s.Writable() <==> file[at + 4] as int / 2 % 2 == 1)
  {
    hide U64, WordAt;
    NumberOfFour(file, at);
    NumberOfFour(file, at + 4);
    OddExactly(file[at + 4..at + 8]);
    NumberOfEight(file, at + 8);
    NumberOfEight(file, at + 16);
    NumberOfEight(file, at + 32);
    NumberOfEight(file, at + 40);
  }

  /** Bytes of a header that is accepted, in full. */
  predicate WellMade(file: seq<Byte>)
  {
    && 64 <= |file| && file[..7] == [0x7F, 0x45, 0x4C, 0x46, 2, 1, 1]
    && file[16..24] == [2, 0, 0x3E, 0, 1, 0, 0, 0] && file[52..56] == [64, 0, 56, 0]
    && Number(file[56..58]) > 0 && Number(file[32..40]) + 56 * Number(file[56..58]) <= |file|
  }

  /** The header checks accept exactly these bytes, and every refusal names bytes that are wrong. */
  lemma HeaderBytesExactly(file: seq<Byte>)
    requires |file| < TWO64
    ensures ValidateHeader(file) == Loaded <==> WellMade(file)
    ensures var status := ValidateHeader(file);
            && (status == BufferTooSmall <==> |file| < 64)
            && (|file| >= 64 ==>
                 && (status == InvalidMagic <==> file[..4] != [0x7F, 0x45, 0x4C, 0x46])
                 && (status == InvalidClass ==> file[4] != 2) && (status == InvalidDataEncoding ==> file[5] != 1)
                 && (status == InvalidVersion ==> file[6] != 1 || file[20..24] != [1, 0, 0, 0])
                 && (status == InvalidMachine ==> file[18..20] != [0x3E, 0])
                 && (status == InvalidType ==> file[16..18] != [2, 0])
                 && (status == InvalidHeaderSize ==> file[52..54] != [64, 0])
                 && (status == InvalidPhSize ==> file[54..56] != [56, 0])
                 && (status == NoLoadableSegments ==> file[56..58] == [0, 0])
                 && (status == PhTableOutOfBounds ==> Number(file[32..40]) + 56 * Number(file[56..58]) > |file|))
  {
    HeaderExactly(file);
    if |file| >= 64 {
      HeaderRead(file);
      HalfBytes(file, 16, 2);
      HalfBytes(file, 18, 0x3E);
      HalfBytes(file, 52, 64);
      HalfBytes(file, 54, 56);
      HalfBytes(file, 56, 0);
      OneBytes(file, 20);
      Joined(file);
      HeaderCodes(file);
    }
  }

  lemma HalfBytes(file: seq<Byte>, i: nat, low: Byte)
    requires i + 2 <= |file|
    ensures HalfAt(file, i) == low as int <==> file[i..i + 2] == [low, 0]
  {
    var b := file[i..i + 2];
    assert b == [file[i], file[i + 1]];
  }

  lemma OneBytes(file: seq<Byte>, i: nat)
    requires i + 4 <= |file|
    ensures WordAt(file, i) == 1 <==> file[i..i + 4] == [1, 0, 0, 0]
  {
    var b := file[i..i + 4];
    assert b == [file[i], file[i + 1], file[i + 2], file[i + 3]];
  }

  lemma Joined(file: seq<Byte>)
    requires 64 <= |file|
    ensures file[16..24] == [2, 0, 0x3E, 0, 1, 0, 0, 0] <==>
              file[16..18] == [2, 0] && file[18..20] == [0x3E, 0] && file[20..24] == [1, 0, 0, 0]
    ensures file[52..56] == [64, 0, 56, 0] <==> file[52..54] == [64, 0] && file[54..56] == [56, 0]
  {
    assert file[16..24] == file[16..18] + file[18..20] + file[20..24];
    assert file[52..56] == file[52..54] + file[54..56];
    assert file[16..18] == file[16..24][..2] && file[18..20] == file[16..24][2..4] && file[20..24] == file[16..24][4..];
    assert file[52..54] == file[52..56][..2] && file[54..56] == file[52..56][2..];
  }

  lemma HeaderCodes(file: seq<Byte>)
    requires 64 <= |file| < TWO64
    ensures var status := ValidateHeader(file);
            && (status == InvalidClass ==> file[4] != 2) && (status == InvalidDataEncoding ==> file[5] != 1)
            && (status == InvalidVersion ==> file[6] != 1 || WordAt(file, 20) != 1)
            && (status == InvalidMachine ==> HalfAt(file, 18) != 0x3E)
            && (status == InvalidType ==> HalfAt(file, 16) != 2)
            && (status == InvalidHeaderSize ==> HalfAt(file, 52) != 64)
            && (status == InvalidPhSize ==> HalfAt(file, 54) != 56)
            && (status == NoLoadableSegments ==> PhNum(file) == 0)
  {
    hide HalfAt, WordAt, U64;
  }

  /** What is wrong with a segment that is refused, and that one that is not has nothing wrong. */
  lemma SegmentExactly(s: Segment, size: u64)
    ensures var status := SegmentStatus(s, size);
            && (status == SegmentOutOfBounds <==> s.offset + s.filesz > size)
            && (status == IntegerOverflow <==>
                 s.offset + s.filesz <= size && (s.memsz < s.filesz || s.vaddr + s.memsz >= 0x1_0000_0000_0000_0000))
            && (status == KernelAddressOverlap <==>
                 && s.offset + s.filesz <= size && s.memsz >= s.filesz && s.vaddr + s.memsz < 0x1_0000_0000_0000_0000
                 && (s.vaddr < 0x1000 || s.vaddr + s.memsz > 0x8000_0000_0000))
            && status in {Loaded, SegmentOutOfBounds, IntegerOverflow, KernelAddressOverlap}
  {
  }

  // ---------------------------------------------------------------- what is accepted

  /** The byte at which program header `i` begins. */
  function At(file: seq<Byte>, i: nat): nat
    requires 64 <= |file|
  {
    Number(file[32..40]) + 56 * i
  }

  /** Program header `i` is in the file and asks to be loaded. */
  predicate Loadable(file: seq<Byte>, i: nat)
  {
    && 64 <= |file| && i < Number(file[56..58]) && At(file, i) + 56 <= |file|
    && Number(file[At(file, i)..At(file, i) + 4]) == 1
  }

  function FileOffset(file: seq<Byte>, i: nat): nat
    requires Loadable(file, i)
  {
    Number(file[At(file, i) + 8..At(file, i) + 16])
  }

  function Address(file: seq<Byte>, i: nat): nat
    requires Loadable(file, i)
  {
    Number(file[At(file, i) + 16..At(file, i) + 24])
  }

  function FileSize(file: seq<Byte>, i: nat): nat
    requires Loadable(file, i)
  {
    Number(file[At(file, i) + 32..At(file, i) + 40])
  }

  function MemorySize(file: seq<Byte>, i: nat): nat
    requires Loadable(file, i)
  {
    Number(file[At(file, i) + 40..At(file, i) + 48])
  }

  /** Its bytes are in the file, and its memory between 4 KiB and 128 TiB. */
  predicate InPlace(file: seq<Byte>, i: nat)
    requires Loadable(file, i)
  {
    && FileOffset(file, i) + FileSize(file, i) <= |file| && FileSize(file, i) <= MemorySize(file, i)
    && 0x1000 <= Address(file, i) && Address(file, i) + MemorySize(file, i) <= 0x8000_0000_0000
  }

  /** Execution starts in it, and it is executable. */
  predicate StartsIn(file: seq<Byte>, i: nat)
  {
    && Loadable(file, i) && file[At(file, i) + 4] as int % 2 == 1
    && Address(file, i) <= Number(file[24..32]) < Address(file, i) + MemorySize(file, i)
  }

  lemma LoadableIsLoad(file: seq<Byte>, i: nat)
    requires |file| < TWO64 && ValidateHeader(file) == Loaded && i < PhNum(file)
    ensures Loadable(file, i) <==> Ph(file, i).Load()
    ensures Loadable(file, i) ==>
              var s := Ph(file, i);
              && s.offset == FileOffset(file, i) && s.vaddr == Address(file, i)
              && s.filesz == FileSize(file, i) && s.memsz == MemorySize(file, i)
              && (InPlace(file, i) <==> Fits(s, |file|)) && (StartsIn(file, i) <==> EntryIn(file, i))
  {
    hide Number, ValidateHeader, Ph, PhNum, PhOff, Entry;
    HeaderInside(file);
    HeaderRead(file);
    ProgramHeaderRead(file, i);
  }

  /** A file is accepted exactly if its header is well made, all that is to be loaded is in place, and it starts
      somewhere executable. */
  lemma AcceptedExactly(file: seq<Byte>)
    requires |file| < TWO64
    ensures Verdict(file, Loaded) <==>
              && WellMade(file) && (forall i: nat :: Loadable(file, i) ==> InPlace(file, i))
              && (exists i: nat :: StartsIn(file, i))
  {
    hide Number, ValidateHeader, Ph, PhNum, InPlace, Fits, Loadable, StartsIn, EntryIn, SegmentStatus;
    HeaderBytesExactly(file);
    if WellMade(file) {
      HeaderInside(file);
      HeaderRead(file);
      forall i: nat | i < PhNum(file)
        ensures Loadable(file, i) <==> Ph(file, i).Load()
        ensures Loadable(file, i) ==>
                  (InPlace(file, i) <==> Fits(Ph(file, i), |file|)) && (StartsIn(file, i) <==> EntryIn(file, i))
      {
        LoadableIsLoad(file, i);
      }
      NotLoadable(file);
      VerdictByHeaders(file);
    } else if Verdict(file, Loaded) {
      AcceptedFits(file);
    }
  }

  /** Beyond the table nothing is loadable, and only what is loadable is started. */
  lemma NotLoadable(file: seq<Byte>)
    ensures forall i: nat :: StartsIn(file, i) ==> Loadable(file, i)
    ensures 64 <= |file| ==> forall i: nat :: Loadable(file, i) ==> i < Number(file[56..58])
  {
  }

  lemma VerdictByHeaders(file: seq<Byte>)
    requires |file| < TWO64 && ValidateHeader(file) == Loaded
    ensures Verdict(file, Loaded) <==>
              && (forall i: nat :: i < PhNum(file) && Ph(file, i).Load() ==> Fits(Ph(file, i), |file|))
              && (exists i: nat :: i < PhNum(file) && Ph(file, i).Load() && EntryIn(file, i))
  {
    hide ValidateHeader, Ph, PhNum, Fits, SegmentStatus;
    if Verdict(file, Loaded) {
      AcceptedFits(file);
    } else if forall i: nat :: i < PhNum(file) && Ph(file, i).Load() ==> Fits(Ph(file, i), |file|) {
      assert forall i :: 0 <= i < PhNum(file) ==> !BadAt(file, i);
    }
  }
}
