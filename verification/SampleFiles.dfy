/** Two small programs the loader accepts, on which its promises fail. */
module SampleFiles {
  import opened Machine
  import opened PagingTypes
  import opened Ram
  import opened LittleEndian
  import opened PageTables
  import opened Vmm
  import opened Elf
  import opened LoadOrder
  import opened Loader
  import opened Programs

  /** An executable of 176 bytes: a segment of code at 0x1000, where it starts, and one of data at the address `v`
      spells, each 16 bytes of memory and nothing of the file. */
  function TwoSegments(v: seq<Byte>): (file: seq<Byte>)
    requires |v| == 8
    ensures |file| == 176
  {
    seq(176, i requires 0 <= i < 176 => if 136 <= i < 144 then v[i - 136] else FixedByte(i))
  }

  function FixedByte(i: nat): Byte
  {
    if i < 64 then HeaderByte(i)
    else if i < 120 then match i { case 64 => 1 case 68 => 5 case 81 => 0x10 case 104 => 16 case _ => 0 }
    else match i { case 120 => 1 case 124 => 6 case 160 => 16 case _ => 0 }
  }

  function HeaderByte(i: nat): Byte
  {
    match i {
      case 0 => 0x7F case 1 => 0x45 case 2 => 0x4C case 3 => 0x46 case 4 => 2 case 5 => 1 case 6 => 1
      case 16 => 2 case 18 => 0x3E case 20 => 1 case 25 => 0x10 case 32 => 64 case 52 => 64 case 54 => 56 case 56 => 2
      case _ => 0
    }
  }

  lemma HeaderAccepted(v: seq<Byte>)
    requires |v| == 8
    ensures ValidateHeader(TwoSegments(v)) == Loaded
    ensures PhNum(TwoSegments(v)) == 2 && PhOff(TwoSegments(v)) == 64 && Entry(TwoSegments(v)) == 0x1000
  {
    hide HalfAt, WordAt, U64;
    HeaderFields(v);
    HeaderAddresses(v);
  }

  lemma HeaderFields(v: seq<Byte>)
    requires |v| == 8
    ensures var file := TwoSegments(v);
            && HalfAt(file, 56) == 2 && HalfAt(file, 54) == 56 && HalfAt(file, 52) == 64 && HalfAt(file, 16) == 2
               && HalfAt(file, 18) == 0x3E
            && WordAt(file, 20) == 1
  {
  }

  lemma HeaderAddresses(v: seq<Byte>)
    requires |v| == 8
    ensures U64(TwoSegments(v), 32) == 64 && U64(TwoSegments(v), 24) == 0x1000
  {
  }

  const CODE: Segment := Segment(1, 5, 0, 0x1000, 0, 16)

  lemma SegmentsRead(v: seq<Byte>)
    requires |v| == 8
    ensures SegmentAt(TwoSegments(v), 64) == CODE
            && SegmentAt(TwoSegments(v), 120) == Segment(1, 6, 0, U64(v, 0), 0, 16)
  {
    hide TwoSegments, WordAt, U64;
    CodeRead(v);
    DataRead(v);
  }

  lemma CodeRead(v: seq<Byte>)
    requires |v| == 8
    ensures var file := TwoSegments(v);
            && WordAt(file, 64) == 1 && WordAt(file, 68) == 5 && U64(file, 72) == 0 && U64(file, 80) == 0x1000
            && U64(file, 96) == 0 && U64(file, 104) == 16
  {
  }

  lemma DataRead(v: seq<Byte>)
    requires |v| == 8
    ensures var file := TwoSegments(v);
            && WordAt(file, 120) == 1 && WordAt(file, 124) == 6 && U64(file, 128) == 0 && U64(file, 136) == U64(v, 0)
            && U64(file, 152) == 0 && U64(file, 160) == 16
  {
  }

  lemma Accepted(v: seq<Byte>)
    requires |v| == 8 && 0x1000 <= U64(v, 0) && U64(v, 0) + 16 <= USER_LIMIT
    ensures var file := TwoSegments(v);
            && Verdict(file, Loaded) && ValidateHeader(file) == Loaded && PhNum(file) == 2
            && Ph(file, 0) == CODE && Ph(file, 1) == Segment(1, 6, 0, U64(v, 0), 0, 16)
  {
    hide TwoSegments, HalfAt, WordAt, U64, SegmentAt, ValidateHeader, PhNum, PhOff, Entry;
    HeaderAccepted(v);
    SegmentsRead(v);
    assert EntryIn(TwoSegments(v), 0);
  }

  /** A data segment at 0x1800 shares its page with the code: the file is accepted, and wants page 0x1000 twice. */
  lemma OverlapAccepted()
    ensures var file := TwoSegments([0, 0x18, 0, 0, 0, 0, 0, 0]);
            Verdict(file, Loaded) && ValidateHeader(file) == Loaded && Clash(file)
  {
    hide TwoSegments, ValidateHeader, Verdict, PhNum, Ph, SegmentAt;
    var v: seq<Byte> := [0, 0x18, 0, 0, 0, 0, 0, 0];
    assert U64(v, 0) == 0x1800;
    Accepted(v);
    var va: u64 := 0x1000;
    assert InSegment(Ph(TwoSegments(v), 0), va) && InSegment(Ph(TwoSegments(v), 1), va);
    assert FromSegment(TwoSegments(v), 1, va);
    assert Again(TwoSegments(v), 1, va);
  }

  lemma GuardAddress(v: seq<Byte>)
    requires v == [0, 0x90, 0xFF, 0xFF, 0xFF, 0x7F, 0, 0]
    ensures U64(v, 0) == USER_STACK_GUARD
  {
  }

  lemma NothingTwice(file: seq<Byte>)
    requires |file| < TWO64 && ValidateHeader(file) == Loaded && PhNum(file) == 2
    requires Ph(file, 0) == CODE && Ph(file, 1) == Segment(1, 6, 0, USER_STACK_GUARD, 0, 16)
    ensures !Clash(file)
  {
    hide ValidateHeader, PhNum, Ph;
    forall j: nat, v: u64 | j <= 2 ensures !Again(file, j, v) { }
  }

  /** A data segment on the guard page: the file is accepted, wants no page twice, and once loaded the page below the
      stack is mapped. */
  lemma GuardClaimed(a: View, b: View, r: nat, img: Image)
    ensures var file := TwoSegments([0, 0x90, 0xFF, 0xFF, 0xFF, 0x7F, 0, 0]);
            && Verdict(file, Loaded) && ValidateHeader(file) == Loaded && !Clash(file)
            && (Placed(a, b, r, img) && Complete(img, file) && IsTable(a.forest, r, 4) ==>
                 Walk(b.mem, r, PathOf(USER_STACK_GUARD)) != Unmapped)
  {
    hide TwoSegments, U64, ValidateHeader, Verdict, PhNum, Ph, SegmentAt, Placed, Complete, Walk, PathOf;
    var v: seq<Byte> := [0, 0x90, 0xFF, 0xFF, 0xFF, 0x7F, 0, 0];
    GuardAddress(v);
    Accepted(v);
    var file := TwoSegments(v);
    assert InSegment(Ph(file, 1), USER_STACK_GUARD);
    assert FromSegment(file, 2, USER_STACK_GUARD);
    NothingTwice(file);
    if Placed(a, b, r, img) && Complete(img, file) && IsTable(a.forest, r, 4) {
      GuardPageExactly(a, b, r, img, file);
    }
  }
}
