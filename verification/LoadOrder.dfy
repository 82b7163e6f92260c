/** kernel/userland/elf_loader.cpp, load: the order in which pages are wanted, and where a load stops. */
module LoadOrder {
  import opened Machine
  import opened PagingTypes
  import opened Ram
  import opened Bitmap
  import opened PageTables
  import opened Vmm
  import opened Elf
  import opened LoadCost

  predicate StackPage(va: int, n: int)
  {
    va % PAGE_SIZE == 0 && USER_STACK_BOTTOM <= va < USER_STACK_BOTTOM + n * PAGE_SIZE
  }

  predicate FromSegment(file: seq<Byte>, n: nat, va: int)
    requires |file| < TWO64 && ValidateHeader(file) == Loaded && n <= PhNum(file)
  {
    exists i :: 0 <= i < n && Ph(file, i).Load() && InSegment(Ph(file, i), va)
  }

  /** Page `va` is wanted by program header `i`, or by the stack, which comes last. */
  predicate WantedAt(file: seq<Byte>, i: nat, va: int)
    requires |file| < TWO64 && ValidateHeader(file) == Loaded && i <= PhNum(file)
  {
    if i == PhNum(file) then StackPage(va, USER_STACK_PAGES) else Ph(file, i).Load() && InSegment(Ph(file, i), va)
  }

  /** The pages wanted before page `va` of `i`. */
  ghost function Earlier(file: seq<Byte>, i: nat, va: int): set<u64>
    requires |file| < TWO64 && ValidateHeader(file) == Loaded && i <= PhNum(file)
  {
    set v: u64 | 0 <= v < LOWER_HALF && (FromSegment(file, i, v) || (WantedAt(file, i, v) && v < va))
  }

  ghost function AllPages(file: seq<Byte>): set<u64>
    requires |file| < TWO64 && ValidateHeader(file) == Loaded
  {
    Earlier(file, PhNum(file), LOWER_HALF)
  }

  /** Page `va` of `i` is wanted a second time. */
  ghost predicate Again(file: seq<Byte>, i: nat, va: u64)
    requires |file| < TWO64 && ValidateHeader(file) == Loaded && i <= PhNum(file)
  {
    WantedAt(file, i, va) && va in Earlier(file, i, va)
  }

  predicate Before(i: nat, va: int, j: nat, vb: int)
  {
    i < j || (i == j && va < vb)
  }

  /** No page is wanted twice before page `va` of `i`. */
  ghost predicate Clean(file: seq<Byte>, i: nat, va: int)
    requires |file| < TWO64 && ValidateHeader(file) == Loaded && i <= PhNum(file)
  {
    forall j: nat, v: u64 {:trigger Again(file, j, v)} :: j <= i && Before(j, v, i, va) ==> !Again(file, j, v)
  }

  /** Some page is wanted twice: by two segments, or by a segment and the stack. */
  ghost predicate Clash(file: seq<Byte>)
    requires |file| < TWO64 && ValidateHeader(file) == Loaded
  {
    exists j: nat, v: u64 {:trigger Again(file, j, v)} :: j <= PhNum(file) && Again(file, j, v)
  }

  /** A place where a load can stop. */
  ghost predicate Spot(file: seq<Byte>, i: nat, va: u64)
    requires |file| < TWO64 && ValidateHeader(file) == Loaded && i <= PhNum(file)
  {
    WantedAt(file, i, va) && va < LOWER_HALF && Clean(file, i, va)
  }

  /** Why a load stops at page `va` with `pages` in place: no frame for it; or a frame, but the page is taken, or the
      frames do not suffice for its tables. */
  ghost predicate Stuck(status: ElfLoadStatus, a: View, r: nat, pages: set<u64>, va: u64)
  {
    var free, cost := Count(a.used, false), Cost(a.mem, r, pages);
    match status
    case AllocationFailed => free == cost
    case MappingFailed => free > cost
    && (va in pages || Walk(a.mem, r, PathOf(va)) != Unmapped || free < Cost(a.mem, r, pages + {va}))
    case _ => false
  }

  /** Since `a`, the frames went to these pages and their tables, and to nothing else. */
  ghost predicate Paid(a: View, mem: Memory, r: nat, pages: set<u64>, free: int)
  {
    Built(a.mem, mem, r, pages) && free + Cost(a.mem, r, pages) == Count(a.used, false)
  }

  /** A load of the file stopped somewhere, with the pages before that place in place. */
  ghost predicate Stopped(status: ElfLoadStatus, a: View, r: nat, pages: set<u64>, file: seq<Byte>)
    requires |file| < TWO64 && ValidateHeader(file) == Loaded
  {
    exists i: nat, va: u64 {:trigger Spot(file, i, va)} ::
      i <= PhNum(file) && Spot(file, i, va) && pages == Earlier(file, i, va) && Stuck(status, a, r, pages, va)
  }

  // ---------------------------------------------------------------- one page

  lemma PaidSame(a: View, mem: Memory, mem': Memory, r: nat, pages: set<u64>, free: int)
    requires Paid(a, mem, r, pages, free) && forall q: Path :: Depth(mem', r, q) == Depth(mem, r, q)
    ensures Paid(a, mem', r, pages, free)
  {
    hide Depth, Built, Cost;
    BuiltSame(a.mem, mem, mem', r, pages);
  }

  /** A page mapped costs its frame and the tables it lacked. */
  lemma PaidNext(a: View, mem: Memory, mem': Memory, r: nat, pages: set<u64>, va: u64, free: int, free': int)
    requires Paid(a, mem, r, pages, free) && va !in pages && PathOf(va).i4 < 256
    requires Charged(mem, mem', r, PathOf(va), free - 1, free') && Depth(mem', r, PathOf(va)) == 3
    ensures Paid(a, mem', r, pages + {va}, free')
  {
    hide Depth, Built, Cost, PathOf, Deepened;
    CostNext(a.mem, mem, r, pages, va);
    BuiltNext(a.mem, mem, mem', r, pages, va);
  }

  /** A page whose tables used up the last frame would have cost more than there was. */
  lemma PaidStuck(a: View, mem: Memory, mem': Memory, r: nat, pages: set<u64>, va: u64, free: int)
    requires Paid(a, mem, r, pages, free) && PathOf(va).i4 < 256 && free > 0
    requires Charged(mem, mem', r, PathOf(va), free - 1, 0) && Depth(mem', r, PathOf(va)) < 3
    ensures Stuck(MappingFailed, a, r, pages, va)
  {
    hide Depth, Built, Cost, PathOf, Deepened, Walk;
    if va !in pages { CostNext(a.mem, mem, r, pages, va); }
  }

  // ---------------------------------------------------------------- the order

  lemma EarlierBefore(file: seq<Byte>, i: nat, va: u64, j: nat, vb: int)
    requires |file| < TWO64 && ValidateHeader(file) == Loaded && i <= j <= PhNum(file)
    requires WantedAt(file, i, va) && va < LOWER_HALF && Before(i, va, j, vb)
    ensures Earlier(file, i, va) + {va} <= Earlier(file, j, vb)
  {
    hide ValidateHeader, Ph, InSegment, StackPage, PhNum;
    forall v | v in Earlier(file, i, va) + {va} ensures v in Earlier(file, j, vb) {
      if FromSegment(file, i, v) {
        var k :| 0 <= k < i && Ph(file, k).Load() && InSegment(Ph(file, k), v);
        assert 0 <= k < j;
      } else {
        assert WantedAt(file, i, v);
        if i < j { assert 0 <= i < j && InSegment(Ph(file, i), v); }
      }
    }
  }

  /** With nothing wanted of the next header yet, the pages are those of the headers before. */
  lemma EarlierStart(file: seq<Byte>, i: nat)
    requires |file| < TWO64 && ValidateHeader(file) == Loaded && i < PhNum(file)
    ensures Earlier(file, i + 1, 0) == Earlier(file, i, 0)
              + if Ph(file, i).Load() then SegmentBelow(Ph(file, i), LOWER_HALF) else {}
  {
    hide ValidateHeader, Ph, InSegment, StackPage, PhNum;
    forall v: u64 | 0 <= v < LOWER_HALF
      ensures FromSegment(file, i + 1, v) <==>
                FromSegment(file, i, v) || (Ph(file, i).Load() && InSegment(Ph(file, i), v))
    {
      if FromSegment(file, i + 1, v) {
        var k :| 0 <= k < i + 1 && Ph(file, k).Load() && InSegment(Ph(file, k), v);
        assert k < i ==> FromSegment(file, i, v);
      }
      if FromSegment(file, i, v) {
        var k :| 0 <= k < i && Ph(file, k).Load() && InSegment(Ph(file, k), v);
        assert 0 <= k < i + 1;
      }
      if Ph(file, i).Load() && InSegment(Ph(file, i), v) { assert 0 <= i < i + 1; }
    }
  }

  ghost function SegmentBelow(s: Segment, limit: int): set<u64>
  {
    set v: u64 | 0 <= v < LOWER_HALF && InSegment(s, v) && v < limit
  }

  ghost function StackBelow(limit: int): set<u64>
  {
    set v: u64 | 0 <= v < LOWER_HALF && StackPage(v, USER_STACK_PAGES) && v < limit
  }

  lemma EarlierWithin(file: seq<Byte>, i: nat, va: int)
    requires |file| < TWO64 && ValidateHeader(file) == Loaded && i <= PhNum(file)
             && (i < PhNum(file) ==> Ph(file, i).Load()) && va >= 0
    ensures Earlier(file, i, va) == Earlier(file, i, 0)
              + if i < PhNum(file) then SegmentBelow(Ph(file, i), va) else StackBelow(va)
  {
    hide ValidateHeader, Ph, InSegment, StackPage, PhNum, FromSegment;
  }

  /** Pages placed one by one, each where nothing was, are wanted once. */
  lemma CleanWithin(file: seq<Byte>, i: nat, va: int)
    requires |file| < TWO64 && ValidateHeader(file) == Loaded && i <= PhNum(file) && Clean(file, i, 0)
    requires forall v: u64 :: WantedAt(file, i, v) && v < va ==> v !in Earlier(file, i, 0)
    ensures Clean(file, i, va)
  {
    hide ValidateHeader, Ph, InSegment, StackPage, PhNum, FromSegment;
    forall j: nat, v: u64 | j <= i && Before(j, v, i, va) ensures !Again(file, j, v) {
      if j < i { assert Before(j, v, i, 0); }
    }
  }

  lemma CleanNext(file: seq<Byte>, i: nat)
    requires |file| < TWO64 && ValidateHeader(file) == Loaded && i < PhNum(file) && Clean(file, i, LOWER_HALF)
    ensures Clean(file, i + 1, 0)
  {
    hide ValidateHeader, Ph, InSegment, StackPage, PhNum, FromSegment, WantedAt;
    forall j: nat, v: u64 | j <= i + 1 && Before(j, v, i + 1, 0) ensures !Again(file, j, v) {
      if v < LOWER_HALF { assert Before(j, v, i, LOWER_HALF); }
    }
  }

  lemma CleanAll(file: seq<Byte>)
    requires |file| < TWO64 && ValidateHeader(file) == Loaded && Clean(file, PhNum(file), LOWER_HALF)
    ensures !Clash(file)
  {
    hide ValidateHeader, Ph, InSegment, StackPage, FromSegment, WantedAt, PhNum;
    forall j: nat, v: u64 | j <= PhNum(file) ensures !Again(file, j, v) {
      if v < LOWER_HALF { assert Before(j, v, PhNum(file), LOWER_HALF); }
    }
  }

  lemma CleanStart(file: seq<Byte>)
    requires |file| < TWO64 && ValidateHeader(file) == Loaded
    ensures Clean(file, 0, 0) && Earlier(file, 0, 0) == {}
  {
    hide ValidateHeader, Ph, InSegment, StackPage, PhNum;
  }

  // ---------------------------------------------------------------- the outcome in an empty space

  /** Frames the pages need where no table is there yet. */
  ghost function Need(pages: set<u64>): nat
  {
    |pages| + |Prefixes(pages)|
  }

  lemma NeedGrows(pages: set<u64>, pages': set<u64>)
    requires pages <= pages'
    ensures Need(pages) <= Need(pages') && (pages != pages' ==> Need(pages) < Need(pages'))
  {
    hide PathOf, Lead;
    SmallerSet(pages, pages');
    SmallerSet(Prefixes(pages), Prefixes(pages'));
  }

  /** The file is loaded: nothing is wanted twice, and there are frames for a root, every page and every table. */
  ghost predicate Fine(file: seq<Byte>, free: nat)
    requires |file| < TWO64 && ValidateHeader(file) == Loaded
  {
    !Clash(file) && free > Need(AllPages(file))
  }

  /** Frames run out exactly before some page. */
  ghost predicate Short(file: seq<Byte>, free: nat)
    requires |file| < TWO64 && ValidateHeader(file) == Loaded
  {
    free == 0 || exists i: nat, va: u64 {:trigger Spot(file, i, va)} ::
      i <= PhNum(file) && Spot(file, i, va) && free == 1 + Need(Earlier(file, i, va))
  }

  /** Some page gets its frame and cannot be mapped: it is wanted again, or its tables do not fit. */
  ghost predicate Blocked(file: seq<Byte>, free: nat)
    requires |file| < TWO64 && ValidateHeader(file) == Loaded
  {
    exists i: nat, va: u64 {:trigger Spot(file, i, va)} ::
      i <= PhNum(file) && Spot(file, i, va) && BlockedAt(file, i, va, free)
  }

  ghost predicate BlockedAt(file: seq<Byte>, i: nat, va: u64, free: nat)
    requires |file| < TWO64 && ValidateHeader(file) == Loaded && i <= PhNum(file)
  {
    var e := Earlier(file, i, va);
    free > 1 + Need(e) && (va in e || free <= Need(e + {va}))
  }

  lemma InAll(file: seq<Byte>, i: nat, va: u64)
    requires |file| < TWO64 && ValidateHeader(file) == Loaded && i <= PhNum(file) && WantedAt(file, i, va)
             && va < LOWER_HALF
    ensures Need(Earlier(file, i, va) + {va}) <= Need(AllPages(file))
  {
    hide ValidateHeader, PhNum, Need, WantedAt, FromSegment;
    EarlierBefore(file, i, va, PhNum(file), LOWER_HALF);
    NeedGrows(Earlier(file, i, va) + {va}, AllPages(file));
  }

  lemma FineIsNotShort(file: seq<Byte>, free: nat)
    requires |file| < TWO64 && ValidateHeader(file) == Loaded && Fine(file, free)
    ensures !Short(file, free) && !Blocked(file, free)
  {
    hide ValidateHeader, PhNum, Need, WantedAt, FromSegment, Earlier, AllPages;
    forall i: nat, va: u64 | i <= PhNum(file) && Spot(file, i, va)
      ensures free > 1 + Need(Earlier(file, i, va)) && !BlockedAt(file, i, va, free)
    {
      InAll(file, i, va);
      assert !Again(file, i, va);
      NeedGrows(Earlier(file, i, va), Earlier(file, i, va) + {va});
    }
  }

  lemma ShortIsNotBlocked(file: seq<Byte>, free: nat)
    requires |file| < TWO64 && ValidateHeader(file) == Loaded && Short(file, free)
    ensures !Blocked(file, free)
  {
    hide ValidateHeader, PhNum, Need, WantedAt, FromSegment, Earlier;
    if free > 0 {
      var i: nat, va: u64 :| i <= PhNum(file) && Spot(file, i, va) && free == 1 + Need(Earlier(file, i, va));
      forall j: nat, vb: u64 | j <= PhNum(file) && Spot(file, j, vb) ensures !BlockedAt(file, j, vb, free) {
        ApartSpots(file, i, va, j, vb, free);
      }
    }
  }

  lemma ApartSpots(file: seq<Byte>, i: nat, va: u64, j: nat, vb: u64, free: nat)
    requires |file| < TWO64 && ValidateHeader(file) == Loaded && i <= PhNum(file) && j <= PhNum(file)
    requires Spot(file, i, va) && Spot(file, j, vb) && free == 1 + Need(Earlier(file, i, va))
    ensures !BlockedAt(file, j, vb, free)
  {
    hide ValidateHeader, PhNum, Need, WantedAt, FromSegment, Earlier;
    if Before(i, va, j, vb) {
      EarlierBefore(file, i, va, j, vb);
      NeedGrows(Earlier(file, i, va), Earlier(file, j, vb));
    } else if Before(j, vb, i, va) {
      EarlierBefore(file, j, vb, i, va);
      NeedGrows(Earlier(file, j, vb) + {vb}, Earlier(file, i, va));
      assert !Again(file, j, vb);
    }
  }
}
