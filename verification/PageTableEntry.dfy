/** kernel/memory/vmm.hpp: the 64-bit encoding of page-table entries. */
module PageTableEntry {
  import opened PagingTypes
  import PageTables
  import Vmm

  const USER: bv64 := 0x004
  const NO_EXECUTE: bv64 := 0x8000_0000_0000_0000
  const LOW_FLAGS: bv64 := 0x1FF
  const ADDRESS: bv64 := 0x000F_FFFF_FFFF_F000

  function FlagsOf(raw: bv64): Flags
  {
    Flags(raw & 0x001 != 0, raw & 0x002 != 0, raw & 0x004 != 0, raw & 0x008 != 0, raw & 0x010 != 0,
          raw & 0x020 != 0, raw & 0x040 != 0, raw & 0x080 != 0, raw & 0x100 != 0, raw & NO_EXECUTE != 0)
  }

  /** `PageTableEntry::set`. */
  function Encode(paddr: bv64, flags: bv64): bv64
  {
    (paddr & ADDRESS) | (flags & LOW_FLAGS) | (flags & NO_EXECUTE)
  }

  /** `PageTableEntry::physical_address`. */
  function AddressOf(raw: bv64): bv64
  {
    raw & ADDRESS
  }

  /** `PageTableEntry::flags`: rebuilt bit by bit. */
  function FlagBits(raw: bv64): bv64
  {
    FlagBitsLow(raw) | FlagBitsHigh(raw)
  }

  function FlagBitsLow(raw: bv64): bv64
  {
    (if raw & 0x001 != 0 then 0x001 else 0) | (if raw & 0x002 != 0 then 0x002 else 0)
    | (if raw & 0x004 != 0 then 0x004 else 0) | (if raw & 0x008 != 0 then 0x008 else 0)
    | (if raw & 0x010 != 0 then 0x010 else 0)
  }

  function FlagBitsHigh(raw: bv64): bv64
  {
    (if raw & 0x020 != 0 then 0x020 else 0) | (if raw & 0x040 != 0 then 0x040 else 0)
    | (if raw & 0x080 != 0 then 0x080 else 0) | (if raw & 0x100 != 0 then 0x100 else 0)
    | (if raw & NO_EXECUTE != 0 then NO_EXECUTE else 0)
  }

  lemma FlagBitsLowIsMask(raw: bv64)
    ensures FlagBitsLow(raw) == raw & 0x1F
  {
  }

  lemma FlagBitsHighIsMask(raw: bv64)
    ensures FlagBitsHigh(raw) == raw & (0x1E0 | NO_EXECUTE)
  {
  }

  lemma FlagBitsIsMask(raw: bv64)
    ensures FlagBits(raw) == raw & (LOW_FLAGS | NO_EXECUTE)
  {
    FlagBitsLowIsMask(raw);
    FlagBitsHighIsMask(raw);
    MaskUnion(raw);
  }

  lemma MaskUnion(raw: bv64)
    ensures (raw & 0x1F) | (raw & (0x1E0 | NO_EXECUTE)) == raw & (LOW_FLAGS | NO_EXECUTE)
  {
  }

  /** What `set` stores, `physical_address` and `flags` read back. */
  lemma EncodeRoundTrip(paddr: bv64, flags: bv64)
    ensures AddressOf(Encode(paddr, flags)) == paddr & ADDRESS
    ensures FlagBits(Encode(paddr, flags)) == flags & (LOW_FLAGS | NO_EXECUTE)
    ensures FlagsOf(Encode(paddr, flags)) == FlagsOf(flags)
  {
    AddressBits(paddr, flags);
    FlagBitsIsMask(Encode(paddr, flags));
    AttributeBits(paddr, flags);
    SameMaskSameFlags(Encode(paddr, flags), flags);
  }

  lemma AddressBits(paddr: bv64, flags: bv64)
    ensures AddressOf(Encode(paddr, flags)) == paddr & ADDRESS
  {
  }

  lemma AttributeBits(paddr: bv64, flags: bv64)
    ensures Encode(paddr, flags) & (LOW_FLAGS | NO_EXECUTE) == flags & (LOW_FLAGS | NO_EXECUTE)
  {
  }

  lemma SameMaskSameFlags(a: bv64, b: bv64)
    requires a & (LOW_FLAGS | NO_EXECUTE) == b & (LOW_FLAGS | NO_EXECUTE)
    ensures FlagsOf(a) == FlagsOf(b)
  {
    SubMask(a, b, 0x001); SubMask(a, b, 0x002); SubMask(a, b, 0x004); SubMask(a, b, 0x008); SubMask(a, b, 0x010);
    SubMask(a, b, 0x020); SubMask(a, b, 0x040); SubMask(a, b, 0x080); SubMask(a, b, 0x100); SubMask(a, b, NO_EXECUTE);
  }

  lemma SubMask(a: bv64, b: bv64, m: bv64)
    requires a & (LOW_FLAGS | NO_EXECUTE) == b & (LOW_FLAGS | NO_EXECUTE)
    requires m & (LOW_FLAGS | NO_EXECUTE) == m
    ensures a & m == b & m
  {
  }

  lemma OrUserBits(raw: bv64)
    ensures FlagsOf(raw | USER) == FlagsOf(raw).(user := true)
  {
    OrOther(raw, 0x001); OrOther(raw, 0x002); OrOther(raw, 0x008); OrOther(raw, 0x010);
    OrOther(raw, 0x020); OrOther(raw, 0x040); OrOther(raw, 0x080); OrOther(raw, 0x100); OrOther(raw, NO_EXECUTE);
    OrSame(raw);
  }

  lemma OrSame(raw: bv64)
    ensures (raw | USER) & 0x004 == 0x004
  {
  }

  lemma OrOther(raw: bv64, m: bv64)
    requires m & USER == 0
    ensures (raw | USER) & m == raw & m
  {
  }

  /** The in-place upgrade of an intermediate entry adds the User bit and nothing else. */
  lemma UserUpgradeRoundTrip(raw: bv64)
    ensures var upgraded := Encode(AddressOf(raw), FlagBits(raw) | USER);
            AddressOf(upgraded) == AddressOf(raw) && FlagsOf(upgraded) == FlagsOf(raw).(user := true)
  {
    EncodeRoundTrip(AddressOf(raw), FlagBits(raw) | USER);
    AddressIdempotent(raw);
    OrUserBits(FlagBits(raw));
    FlagBitsIsMask(raw);
    MaskIdempotent(raw);
    SameMaskSameFlags(FlagBits(raw), raw);
  }

  lemma AddressIdempotent(raw: bv64)
    ensures (raw & ADDRESS) & ADDRESS == raw & ADDRESS
  {
  }

  lemma MaskIdempotent(raw: bv64)
    ensures (raw & (LOW_FLAGS | NO_EXECUTE)) & (LOW_FLAGS | NO_EXECUTE) == raw & (LOW_FLAGS | NO_EXECUTE)
  {
  }

  // ---------------------------------------------------------------- the decoded entry

  function FrameOf(address: bv64): nat
  {
    (address >> 12) as nat
  }

  /** The entry the page-table model works on. */
  function Decode(raw: bv64): Pte
  {
    Pte(FlagsOf(raw), FrameOf(AddressOf(raw)))
  }

  /** `set` stores the flags and the frame number it is given. */
  lemma SetDecodes(paddr: bv64, flags: bv64)
    ensures Decode(Encode(paddr, flags)) == Pte(FlagsOf(flags), FrameOf(paddr & ADDRESS))
  {
    hide Encode, FlagsOf, AddressOf, FrameOf, FlagBits;
    EncodeRoundTrip(paddr, flags);
  }

  /** The number a word stands for. */
  function Value(p: bv64): (n: nat)
    ensures n < 0x1_0000_0000_0000_0000
  {
    p as nat
  }

  /** A word in three pieces: bits 52 to 63, the frame number, and the offset in the page. */
  lemma Pieces(p: bv64) returns (high: bv12, frame: bv40, low: bv12)
    ensures p == ((high as bv64) << 52) | ((frame as bv64) << 12) | (low as bv64)
  {
    high := (p >> 52) as bv12;
    frame := ((p >> 12) & 0xFF_FFFF_FFFF) as bv40;
    low := (p & 0xFFF) as bv12;
  }

  lemma PiecesValue(high: bv12, frame: bv40, low: bv12)
    ensures Value(((high as bv64) << 52) | ((frame as bv64) << 12) | (low as bv64)) ==
              OffsetValue(high) * 0x10_0000_0000_0000 + FrameValue(frame) * 0x1000 + OffsetValue(low)
  {
  }

  lemma PiecesFrame(high: bv64, frame: bv64, low: bv64)
    requires frame & 0xFF_FFFF_FFFF == frame && high & 0xFFF == high && low & 0xFFF == low
    ensures (((high << 52) | (frame << 12) | low) & ADDRESS) >> 12 == frame
  {
  }

  lemma Widened(frame: bv40)
    ensures (frame as bv64) as nat == frame as nat
  {
  }

  lemma PiecesNarrow(high: bv12, frame: bv40, low: bv12)
    ensures (high as bv64) & 0xFFF == high as bv64 && (frame as bv64) & 0xFF_FFFF_FFFF == frame as bv64
    ensures (low as bv64) & 0xFFF == low as bv64
  {
  }

  function FrameValue(frame: bv40): (n: nat)
    ensures n < 0x100_0000_0000
  {
    frame as nat
  }

  function OffsetValue(low: bv12): (n: nat)
    ensures n < 0x1000
  {
    low as nat
  }

  lemma FramePart(high: bv12, frame: bv40, low: bv12)
    ensures FrameOf((((high as bv64) << 52) | ((frame as bv64) << 12) | (low as bv64)) & ADDRESS) == FrameValue(frame)
  {
    PiecesNarrow(high, frame, low);
    PiecesFrame(high as bv64, frame as bv64, low as bv64);
    Widened(frame);
  }

  /** The frame number stored is the address divided by the page size, cut to 40 bits. */
  lemma FrameIsQuotient(p: bv64)
    ensures FrameOf(p & ADDRESS) == Value(p) / 0x1000 % 0x100_0000_0000
  {
    hide Value, FrameOf, FrameValue, OffsetValue;
    var high, frame, low := Pieces(p);
    PiecesValue(high, frame, low);
    FramePart(high, frame, low);
    QuotientOfPieces(OffsetValue(high), FrameValue(frame), OffsetValue(low));
  }

  lemma QuotientOfPieces(high: nat, frame: nat, low: nat)
    requires frame < 0x100_0000_0000 && low < 0x1000
    ensures (high * 0x10_0000_0000_0000 + frame * 0x1000 + low) / 0x1000 % 0x100_0000_0000 == frame
  {
    assert high * 0x10_0000_0000_0000 + frame * 0x1000 + low == (high * 0x100_0000_0000 + frame) * 0x1000 + low;
  }

  /** What `map_page_in_table` writes, decoded, is the entry of the model. */
  lemma StoredIsEntryFor(p: bv64, flags: bv64)
    ensures Vmm.EntryFor(Value(p), FlagsOf(flags)) == Decode(Encode(p, flags))
  {
    hide Encode, FlagsOf, AddressOf, FrameOf, Decode, Vmm.EntryFor, Value;
    SetDecodes(p, flags);
    FrameIsQuotient(p);
    Vmm.EntryForParts(Value(p), FlagsOf(flags));
  }

  /** The in-place upgrade is the model's. */
  lemma UpgradeDecodes(raw: bv64)
    ensures Decode(Encode(AddressOf(raw), FlagBits(raw) | USER)) == PageTables.Upgraded(Decode(raw))
  {
    hide Encode, FlagsOf, AddressOf, FrameOf, FlagBits;
    UserUpgradeRoundTrip(raw);
  }
}
