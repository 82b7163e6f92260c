/** kernel/memory/kalloc.cpp: the slab allocator with headers inside the blocks it manages. */
module Kalloc {
  import opened Machine

  const MAGIC: nat := 0x4C4C_414D
  const TWO32: nat := 0x1_0000_0000
  const HEADER: nat := 16
  const NUM_SLABS: nat := 6
  const DIRECT: nat := 0xFF

  function SlabSize(bin: nat): (n: nat)
    requires bin < NUM_SLABS
    ensures n % 64 == 0 && 64 <= n <= 2048
  {
    if bin == 0 then 64
    else if bin == 1 then 128
    else if bin == 2 then 256
    else if bin == 3 then 512
    else if bin == 4 then 1024
    else 2048
  }

  lemma SlabSizesDiffer(a: nat, b: nat)
    requires a < NUM_SLABS && b < NUM_SLABS && SlabSize(a) == SlabSize(b)
    ensures a == b
  {
  }

  /** The first 16 bytes of a block. A free block keeps its link in `word`; a live one keeps the magic number in the low
      half of `word` and the size in the high half. */
  datatype Cell = Cell(word: nat, pages: nat, bin: nat) {
    function Magic(): nat { word % TWO32 }
  }

  /** A block handed out: what was asked for and where it came from. */
  datatype Live = Live(size: nat, pages: nat, bin: nat)

  type Blocks = map<nat, nat>

  /** `size + sizeof(AllocHeader)`, in 64 bits. */
  function Needed(size: nat): (n: nat)
    ensures size < TWO64 ==> n == if size + HEADER < TWO64 then size + HEADER else size + HEADER - TWO64
  {
    (size + HEADER) % TWO64
  }

  /** The magic number and, above it, as much of the size as fits. */
  function Tag(size: nat): (word: nat)
    ensures word % TWO32 == 0x4C4C_414D == MAGIC && word >= MAGIC && word / TWO32 == size % TWO32
  {
    MAGIC + TWO32 * (size % TWO32)
  }

  /** A block of `len` bytes has room for the request and its header exactly when their sum did not wrap. */
  predicate Serves(size: nat, len: nat)
  {
    0 < size < TWO64 && (size + HEADER <= len <==> size + HEADER < TWO64)
  }

  /** A request of 2^64 - 16 bytes is answered with a block of 64. */
  lemma WrappedRequest()
    ensures Needed(TWO64 - HEADER) == 0 && SlabBin(Needed(TWO64 - HEADER)) == 0 && SlabSize(0) == 64
  {
  }

  lemma NeededServes(size: nat, len: nat)
    requires 0 < size < TWO64 && Needed(size) <= len && (SlabBin(Needed(size)) < NUM_SLABS ==> len <= 2048)
    ensures Serves(size, len)
  {
  }

  /** `find_slab_bin`: the smallest fitting bin, or NUM_SLABS. */
  function SlabBin(total: nat): (bin: nat)
    ensures bin <= NUM_SLABS && (bin < NUM_SLABS ==> total <= SlabSize(bin)) && (bin == NUM_SLABS <==> total > 2048)
    ensures forall b :: 0 <= b < bin ==> SlabSize(b) < total
  {
    if total <= 64 then 0 else if total <= 128 then 1 else if total <= 256 then 2 else if total <= 512 then 3
    else if total <= 1024 then 4 else if total <= 2048 then 5 else NUM_SLABS
  }

  method FindSlabBin(total: nat) returns (bin: nat)
    ensures bin == SlabBin(total)
  {
    bin := 0;
    while bin < NUM_SLABS
      invariant 0 <= bin <= NUM_SLABS && forall b :: 0 <= b < bin ==> SlabSize(b) < total
    {
      if total <= SlabSize(bin) { return; }
      bin := bin + 1;
    }
    assert SlabSize(NUM_SLABS - 1) < total;
  }

  /** Bins double from 64 bytes on, and divide a page. */
  lemma BinsDouble(b: nat)
    requires b < NUM_SLABS
    ensures SlabSize(0) == 64 && (b > 0 ==> SlabSize(b) == 2 * SlabSize(b - 1)) && 0x1000 % SlabSize(b) == 0
    ensures PerPage(b) * SlabSize(b) == 0x1000
  {
  }

  /** What a request takes: room for it and its 16-byte header, in a block less than twice that (or the smallest), or
      in whole pages, less than one to spare. */
  lemma TakesLittleMore(size: nat)
    requires size < TWO64 - 16
    ensures var bin := SlabBin(Needed(size));
            && (bin < NUM_SLABS <==> size + 16 <= 2048)
            && (bin < NUM_SLABS ==>
                 size + 16 <= SlabSize(bin) && (bin == 0 || SlabSize(bin) < 2 * (size + 16)) && PagesFor(size) == 1)
            && (bin == NUM_SLABS ==> size + 16 <= PagesFor(size) * 0x1000 < size + 16 + 0x1000)
  {
    var bin := SlabBin(Needed(size));
    if 0 < bin < NUM_SLABS { BinsDouble(bin); }
  }

  /** The first `n` blocks of a page, the last one first: the order in which a refill leaves them on the list. */
  function Cut(page: nat, size: nat, n: nat): (list: seq<nat>)
    ensures |list| == n
  {
    if n == 0 then [] else [page + Span(n - 1, size)] + Cut(page, size, n - 1)
  }

  function CutBlocks(blocks: Blocks, page: nat, size: nat, n: nat): Blocks
  {
    if n == 0 then blocks else CutBlocks(blocks, page, size, n - 1)[page + Span(n - 1, size) := size]
  }

  /** Blocks of a bin in a page. */
  function PerPage(bin: nat): (n: nat)
    requires bin < NUM_SLABS
    ensures n > 0
  {
    PAGE_SIZE / SlabSize(bin)
  }

  /** `k` blocks of the page were put on the bin's list; no other block or bin changed. */
  ghost predicate Refilling(free: seq<seq<nat>>, free': seq<seq<nat>>, blocks: Blocks, blocks': Blocks, bin: nat,
                            page: nat, k: nat)
  {
    && bin < NUM_SLABS == |free|
    && free' == free[bin := Cut(page, SlabSize(bin), k) + free[bin]]
       && blocks' == CutBlocks(blocks, page, SlabSize(bin), k)
  }

  lemma RefillStarts(free: seq<seq<nat>>, blocks: Blocks, bin: nat, page: nat)
    requires bin < NUM_SLABS == |free|
    ensures Refilling(free, free, blocks, blocks, bin, page, 0)
  {
    assert Cut(page, SlabSize(bin), 0) + free[bin] == free[bin];
  }

  lemma RefillStep(free: seq<seq<nat>>, free': seq<seq<nat>>, blocks: Blocks, blocks': Blocks, bin: nat, page: nat,
                   k: nat, at: nat)
    requires Refilling(free, free', blocks, blocks', bin, page, k) && at == page + Span(k, SlabSize(bin))
    ensures Refilling(free, free'[bin := [at] + free'[bin]], blocks, blocks'[at := SlabSize(bin)], bin, page, k + 1)
  {
    hide SlabSize, Span;
    var n := SlabSize(bin);
    assert [at] + (Cut(page, n, k) + free[bin]) == Cut(page, n, k + 1) + free[bin];
  }

  /** Block `a` was served from the front of its bin, or after a refill, or as whole pages. */
  ghost predicate HandedOut(free: seq<seq<nat>>, free': seq<seq<nat>>, blocks: Blocks, blocks': Blocks, size: nat,
                            page: nat, a: nat)
  {
    var bin := SlabBin(Needed(size));
    && |free| == NUM_SLABS
    && (bin < NUM_SLABS && free[bin] != [] ==>
         a == free[bin][0] && free' == free[bin := free[bin][1..]] && blocks' == blocks)
    && (bin < NUM_SLABS && free[bin] == [] ==>
          var n := PerPage(bin);
          && a == page + Span(n - 1, SlabSize(bin))
          && free' == free[bin := Cut(page, SlabSize(bin), n - 1)]
             && blocks' == CutBlocks(blocks, page, SlabSize(bin), n))
    && (bin == NUM_SLABS ==> a == page && free' == free && blocks' == blocks[a := PagesFor(size) * PAGE_SIZE])
  }

  /** Block `a` went back to the front of its bin, or its pages to the page allocator. */
  ghost predicate Returned(free: seq<seq<nat>>, free': seq<seq<nat>>, blocks: Blocks, blocks': Blocks,
                           live: map<nat, Live>, a: nat)
  {
    && a in live && |free| == NUM_SLABS
    && var bin := live[a].bin;
    if bin < NUM_SLABS then blocks' == blocks && free' == free[bin := [a] + free[bin]]
    else blocks' == blocks - {a} && free' == free
  }

  /** Pages a request may need: one to refill a bin, or as many as hold the block and its header. */
  function PagesFor(size: nat): (n: nat)
    ensures n > 0 && (SlabBin(Needed(size)) == NUM_SLABS ==> Needed(size) <= n * PAGE_SIZE)
  {
    if SlabBin(Needed(size)) < NUM_SLABS then 1 else (Needed(size) + PAGE_SIZE - 1) / PAGE_SIZE
  }

  /** What is remembered about a block handed out for `size` bytes. */
  function Entry(size: nat): Live
  {
    var bin := SlabBin(Needed(size));
    if bin < NUM_SLABS then Live(size, 0, bin) else Live(size, PagesFor(size), DIRECT)
  }

  /** The page allocator is asked: for a large request, or to refill an empty bin. */
  ghost predicate NeedsPages(free: seq<seq<nat>>, size: nat)
    requires |free| == NUM_SLABS
  {
    var bin := SlabBin(Needed(size));
    bin == NUM_SLABS || free[bin] == []
  }

  // ---------------------------------------------------------------- the invariant

  predicate Apart(a: nat, m: nat, b: nat, n: nat)
  {
    a + m <= b || b + n <= a
  }

  /** No two blocks overlap. */
  ghost predicate AllApart(blocks: Blocks)
  {
    forall a, b :: a in blocks && b in blocks && a != b ==> Apart(a, blocks[a], b, blocks[b])
  }

  /** The range is outside every block. */
  ghost predicate Outside(blocks: Blocks, at: nat, len: nat)
  {
    forall a :: a in blocks ==> Apart(a, blocks[a], at, len)
  }

  predicate DistinctAddresses(s: seq<nat>)
  {
    forall i, j :: 0 <= i < j < |s| ==> s[i] != s[j]
  }

  function Link(list: seq<nat>, i: int): nat
    requires -1 <= i < |list|
  {
    if i + 1 < |list| then list[i + 1] else 0
  }

  /** One free list: distinct blocks of the bin's size, each holding the address of the next. */
  ghost predicate ListOk(mem: map<nat, Cell>, blocks: Blocks, head: nat, list: seq<nat>, size: nat)
  {
    && DistinctAddresses(list) && head == Link(list, -1)
    && (forall i :: 0 <= i < |list| ==>
         list[i] in mem && list[i] in blocks && blocks[list[i]] == size && 0 < list[i] < TWO64 && list[i] % 64 == 0)
    && (forall i {:trigger Link(list, i)} :: 0 <= i < |list| ==> mem[list[i]].word == Link(list, i))
  }

  /** A live block: header intact, and room for what was asked unless the sum with the header wrapped. */
  predicate LiveOk(mem: map<nat, Cell>, blocks: Blocks, a: nat, l: Live)
  {
    && a in mem && a in blocks && 0 < a < TWO64 && a % 64 == 0 && Serves(l.size, blocks[a])
    && mem[a] == Cell(Tag(l.size), l.pages, l.bin)
    && (l.bin < NUM_SLABS ==> l.pages == 0 && blocks[a] == SlabSize(l.bin))
    && (l.bin >= NUM_SLABS ==> l.bin == DIRECT && l.pages > 0 && blocks[a] == l.pages * PAGE_SIZE)
  }

  ghost predicate InSome(free: seq<seq<nat>>, a: nat)
  {
    exists b :: 0 <= b < |free| && a in free[b]
  }

  ghost predicate HeapOk(mem: map<nat, Cell>, blocks: Blocks, heads: seq<nat>, free: seq<seq<nat>>,
                         live: map<nat, Live>)
  {
    && |heads| == NUM_SLABS == |free| && AllApart(blocks)
    && (forall b :: 0 <= b < NUM_SLABS ==> ListOk(mem, blocks, heads[b], free[b], SlabSize(b)))
    && (forall a :: a in live ==> LiveOk(mem, blocks, a, live[a]) && !InSome(free, a))
    && (forall a :: a in blocks ==> a in live || InSome(free, a))
  }

  // ---------------------------------------------------------------- free-list steps

  lemma ListFrame(mem: map<nat, Cell>, mem': map<nat, Cell>, blocks: Blocks, blocks': Blocks, head: nat, list: seq<nat>,
                  size: nat)
    requires ListOk(mem, blocks, head, list, size)
    requires forall i :: 0 <= i < |list| ==>
               list[i] in mem' && mem'[list[i]] == mem[list[i]] && list[i] in blocks'
               && blocks'[list[i]] == blocks[list[i]]
    ensures ListOk(mem', blocks', head, list, size)
  {
  }

  lemma ListPush(mem: map<nat, Cell>, blocks: Blocks, head: nat, list: seq<nat>, size: nat, a: nat, cell: Cell)
    requires ListOk(mem, blocks, head, list, size) && a !in list && a in blocks && blocks[a] == size && 0 < a < TWO64
             && a % 64 == 0
    requires cell.word == head
    ensures ListOk(mem[a := cell], blocks, a, [a] + list, size)
  {
    var list', mem' := [a] + list, mem[a := cell];
    forall i | 0 <= i < |list'| ensures mem'[list'[i]].word == Link(list', i) {
      if i > 0 { assert Link(list', i) == Link(list, i - 1); } else { assert Link(list', 0) == Link(list, -1); }
    }
  }

  lemma ListPop(mem: map<nat, Cell>, blocks: Blocks, head: nat, list: seq<nat>, size: nat, cell: Cell)
    requires ListOk(mem, blocks, head, list, size) && list != []
    ensures head == list[0] && head in mem && head !in list[1..]
            && ListOk(mem[head := cell], blocks, mem[head].word, list[1..], size)
  {
    var rest, mem' := list[1..], mem[head := cell];
    assert Link(list, -1) == list[0];
    assert mem[head].word == Link(list, 0) == Link(rest, -1);
    forall i | 0 <= i < |rest| ensures rest[i] != head && mem'[rest[i]].word == Link(rest, i) {
      assert rest[i] == list[i + 1] && Link(rest, i) == Link(list, i + 1);
    }
  }

  /** A block is in the list of its own size only. */
  lemma OneList(mem: map<nat, Cell>, blocks: Blocks, heads: seq<nat>, free: seq<seq<nat>>, live: map<nat, Live>, b: nat,
                c: nat, a: nat)
    requires HeapOk(mem, blocks, heads, free, live) && b < NUM_SLABS && c < NUM_SLABS && a in free[b] && b != c
    ensures a !in free[c]
  {
    assert ListOk(mem, blocks, heads[b], free[b], SlabSize(b)) && ListOk(mem, blocks, heads[c], free[c], SlabSize(c));
    if a in free[c] { SlabSizesDiffer(b, c); }
  }

  /** The link of a free block never looks like the magic number, and its payload is never page aligned. */
  lemma FreeBlockRefused(mem: map<nat, Cell>, blocks: Blocks, head: nat, list: seq<nat>, size: nat, a: nat)
    requires ListOk(mem, blocks, head, list, size) && a in list
    ensures a in mem && mem[a].Magic() != MAGIC && !PageAligned(a + HEADER)
  {
    var i :| 0 <= i < |list| && list[i] == a;
    assert mem[list[i]].word == Link(list, i);
    assert Link(list, i) % 64 == 0;
  }

  // ---------------------------------------------------------------- heap steps

  ghost predicate InOther(free: seq<seq<nat>>, b: nat, a: nat)
  {
    exists c :: 0 <= c < |free| && c != b && a in free[c]
  }

  lemma SomeAfter(free: seq<seq<nat>>, b: nat, list: seq<nat>, a: nat)
    requires b < |free|
    ensures InSome(free[b := list], a) <==> a in list || InOther(free, b, a)
    ensures InSome(free, a) <==> a in free[b] || InOther(free, b, a)
  {
    var free' := free[b := list];
    if c :| 0 <= c < |free| && c != b && a in free[c] { assert a in free'[c]; }
    if a in list { assert a in free'[b]; }
    if c :| 0 <= c < |free'| && a in free'[c] { if c != b { assert a in free[c]; } }
  }

  /** Handing out the first block of a bin. */
  lemma TakenOk(mem: map<nat, Cell>, blocks: Blocks, heads: seq<nat>, free: seq<seq<nat>>, live: map<nat, Live>, b: nat,
                size: nat)
    requires HeapOk(mem, blocks, heads, free, live) && b < NUM_SLABS && free[b] != [] && Serves(size, SlabSize(b))
    ensures var a := heads[b];
            && a in mem && a in blocks && a !in live && 0 < a < TWO64 && a == free[b][0]
            && HeapOk(mem[a := Cell(Tag(size), 0, b)], blocks, heads[b := mem[a].word], free[b := free[b][1..]],
                 live[a := Live(size, 0, b)])
  {
    hide ListOk, SlabSize, InSome;
    assert ListOk(mem, blocks, heads[b], free[b], SlabSize(b));
    var a, cell := heads[b], Cell(Tag(size), 0, b);
    ListMember(mem, blocks, heads[b], free[b], SlabSize(b), 0);
    ListPop(mem, blocks, heads[b], free[b], SlabSize(b), cell);
    SomeAfter(free, b, free[b][1..], a);
    var mem', free', live' := mem[a := cell], free[b := free[b][1..]], live[a := Live(size, 0, b)];
    forall c | 0 <= c < NUM_SLABS && c != b ensures ListOk(mem', blocks, heads[c], free[c], SlabSize(c)) {
      OneList(mem, blocks, heads, free, live, b, c, a);
      OtherList(mem, mem', blocks, blocks, heads[c], free[c], SlabSize(c), a);
    }
    NotInOthers(mem, blocks, heads, free, live, b, a);
    forall x | x in live' ensures LiveOk(mem', blocks, x, live'[x]) && !InSome(free', x) {
      SomeAfter(free, b, free[b][1..], x);
      if x != a { assert !InSome(free, x); RestIsPart(free[b], x); }
    }
    forall x | x in blocks ensures x in live' || InSome(free', x) {
      SomeAfter(free, b, free[b][1..], x);
      RestIsPart(free[b], x);
    }
  }

  lemma RestIsPart(list: seq<nat>, x: nat)
    requires list != []
    ensures x in list <==> x == list[0] || x in list[1..]
  {
  }

  lemma ListMember(mem: map<nat, Cell>, blocks: Blocks, head: nat, list: seq<nat>, size: nat, i: nat)
    requires ListOk(mem, blocks, head, list, size) && i < |list|
    ensures list[i] in mem && list[i] in blocks && blocks[list[i]] == size && 0 < list[i] < TWO64 && list[i] % 64 == 0
    ensures i == 0 ==> head == list[0]
  {
  }

  lemma OtherList(mem: map<nat, Cell>, mem': map<nat, Cell>, blocks: Blocks, blocks': Blocks, head: nat, list: seq<nat>,
                  size: nat, a: nat)
    requires ListOk(mem, blocks, head, list, size) && a !in list
    requires forall x :: x in mem && x != a ==> x in mem' && mem'[x] == mem[x]
    requires forall x :: x in blocks && x != a ==> x in blocks' && blocks'[x] == blocks[x]
    ensures ListOk(mem', blocks', head, list, size)
  {
    ListFrame(mem, mem', blocks, blocks', head, list, size);
  }

  lemma NotInOthers(mem: map<nat, Cell>, blocks: Blocks, heads: seq<nat>, free: seq<seq<nat>>, live: map<nat, Live>,
                    b: nat, a: nat)
    requires HeapOk(mem, blocks, heads, free, live) && b < NUM_SLABS && a in free[b]
    ensures !InOther(free, b, a)
  {
    forall c | 0 <= c < |free| && c != b ensures a !in free[c] { OneList(mem, blocks, heads, free, live, b, c, a); }
  }

  /** Putting a block in front of a bin: a live block returned, or a new one from a fresh page. */
  lemma PutOk(mem: map<nat, Cell>, blocks: Blocks, heads: seq<nat>, free: seq<seq<nat>>, live: map<nat, Live>, b: nat,
              a: nat, cell: Cell)
    requires HeapOk(mem, blocks, heads, free, live) && b < NUM_SLABS && cell.word == heads[b] && 0 < a < TWO64
             && a % 64 == 0
    requires a in live ==> blocks[a] == SlabSize(b)
    requires a !in live ==> a !in blocks && Outside(blocks, a, SlabSize(b))
    ensures HeapOk(mem[a := cell], blocks[a := SlabSize(b)], heads[b := a], free[b := [a] + free[b]], live - {a})
  {
    hide ListOk, SlabSize, InSome;
    NotFree(mem, blocks, heads, free, live, a);
    assert ListOk(mem, blocks, heads[b], free[b], SlabSize(b));
    var mem', blocks', free', live' := mem[a := cell], blocks[a := SlabSize(b)], free[b := [a] + free[b]], live - {a};
    SomeAfter(free, b, [a] + free[b], a);
    OtherList(mem, mem, blocks, blocks', heads[b], free[b], SlabSize(b), a);
    ListPush(mem, blocks', heads[b], free[b], SlabSize(b), a, cell);
    forall c | 0 <= c < NUM_SLABS && c != b ensures ListOk(mem', blocks', heads[c], free[c], SlabSize(c)) {
      NotInList(free, c, a);
      OtherList(mem, mem', blocks, blocks', heads[c], free[c], SlabSize(c), a);
    }
    forall x | x in live' ensures LiveOk(mem', blocks', x, live'[x]) && !InSome(free', x) {
      SomeAfter(free, b, [a] + free[b], x);
    }
    forall x | x in blocks' ensures x in live' || InSome(free', x) {
      SomeAfter(free, b, [a] + free[b], x);
    }
    ApartAfter(blocks, a, SlabSize(b));
  }

  lemma NotInList(free: seq<seq<nat>>, c: nat, a: nat)
    requires c < |free| && !InSome(free, a)
    ensures a !in free[c]
  {
  }

  /** A block that is live, or no block at all, is on no free list. */
  lemma NotFree(mem: map<nat, Cell>, blocks: Blocks, heads: seq<nat>, free: seq<seq<nat>>, live: map<nat, Live>, a: nat)
    requires HeapOk(mem, blocks, heads, free, live) && (a in live || a !in blocks)
    ensures !InSome(free, a)
  {
    forall b | 0 <= b < |free| ensures a !in live ==> a !in free[b] {
      assert ListOk(mem, blocks, heads[b], free[b], SlabSize(b));
    }
  }

  lemma ApartAfter(blocks: Blocks, a: nat, len: nat)
    requires AllApart(blocks) && (if a in blocks then blocks[a] == len else Outside(blocks, a, len))
    ensures AllApart(blocks[a := len])
  {
  }

  /** A direct allocation. */
  lemma DirectOk(mem: map<nat, Cell>, blocks: Blocks, heads: seq<nat>, free: seq<seq<nat>>, live: map<nat, Live>,
                 a: nat, size: nat, pages: nat)
    requires HeapOk(mem, blocks, heads, free, live) && a !in blocks && Outside(blocks, a, pages * PAGE_SIZE)
             && 0 < a < TWO64 && a % 64 == 0
    requires Serves(size, pages * PAGE_SIZE) && pages > 0
    ensures HeapOk(mem[a := Cell(Tag(size), pages, DIRECT)], blocks[a := pages * PAGE_SIZE], heads, free,
              live[a := Live(size, pages, DIRECT)])
  {
    hide ListOk, SlabSize, InSome;
    NotFree(mem, blocks, heads, free, live, a);
    assert a !in live;
    var mem', blocks' := mem[a := Cell(Tag(size), pages, DIRECT)], blocks[a := pages * PAGE_SIZE];
    forall c | 0 <= c < NUM_SLABS ensures ListOk(mem', blocks', heads[c], free[c], SlabSize(c)) {
      NotInList(free, c, a);
      OtherList(mem, mem', blocks, blocks', heads[c], free[c], SlabSize(c), a);
    }
    ApartAfter(blocks, a, pages * PAGE_SIZE);
  }

  /** A direct allocation given back to the page allocator. */
  lemma DroppedOk(mem: map<nat, Cell>, blocks: Blocks, heads: seq<nat>, free: seq<seq<nat>>, live: map<nat, Live>,
                  a: nat, cell: Cell)
    requires HeapOk(mem, blocks, heads, free, live) && a in live
    ensures HeapOk(mem[a := cell], blocks - {a}, heads, free, live - {a})
  {
    hide ListOk, SlabSize, InSome;
    forall c | 0 <= c < NUM_SLABS ensures ListOk(mem[a := cell], blocks - {a}, heads[c], free[c], SlabSize(c)) {
      NotInList(free, c, a);
      OtherList(mem, mem[a := cell], blocks, blocks - {a}, heads[c], free[c], SlabSize(c), a);
    }
  }

  // ---------------------------------------------------------------- the allocator

  function Span(n: nat, size: nat): nat
  {
    n * size
  }

  lemma SpanStep(n: nat, size: nat)
    requires n > 0
    ensures Span(n, size) == Span(n - 1, size) + size
  {
  }

  /** A page divides evenly into blocks of any bin. */
  lemma PageSplits(bin: nat)
    requires bin < NUM_SLABS
    ensures Span(PerPage(bin), SlabSize(bin)) == PAGE_SIZE && Span(0, SlabSize(bin)) == 0
  {
  }

  /** Pages obtained from the page allocator: aligned, addressable, few enough for the header's count, and no part of
      any block. */
  ghost predicate Granted(blocks: Blocks, page: nat, pages: nat)
  {
    page != 0 ==>
      PageAligned(page) && page + pages * PAGE_SIZE <= TWO64 && pages < TWO32
      && Outside(blocks, page, pages * PAGE_SIZE)
  }

  lemma GrantedParts(blocks: Blocks, page: nat, pages: nat)
    requires Granted(blocks, page, pages) && page != 0 && pages > 0
    ensures page % 64 == 0 && page + pages * PAGE_SIZE <= TWO64 && page < TWO64
            && Outside(blocks, page, pages * PAGE_SIZE)
  {
    hide Outside;
    PageOfBlocks(page);
  }

  lemma PageOfBlocks(page: nat)
    requires PageAligned(page)
    ensures page % 64 == 0
  {
    var k := page / PAGE_SIZE;
    assert page == 64 * (64 * k);
  }

  lemma DirectHandedOut(free: seq<seq<nat>>, blocks: Blocks, size: nat, page: nat)
    requires |free| == NUM_SLABS && SlabBin(Needed(size)) == NUM_SLABS
    ensures HandedOut(free, free, blocks, blocks[page := PagesFor(size) * PAGE_SIZE], size, page, page)
  {
  }

  lemma SlabHandedOut(free: seq<seq<nat>>, blocks: Blocks, size: nat, page: nat, bin: nat)
    requires bin == SlabBin(Needed(size)) < NUM_SLABS == |free| && free[bin] != []
    ensures HandedOut(free, free[bin := free[bin][1..]], blocks, blocks, size, page, free[bin][0])
  {
  }

  lemma RefillHandedOut(free: seq<seq<nat>>, free': seq<seq<nat>>, blocks: Blocks, blocks': Blocks, size: nat,
                        page: nat, bin: nat)
    requires bin == SlabBin(Needed(size)) < NUM_SLABS
             && Refilling(free, free', blocks, blocks', bin, page, PerPage(bin)) && free[bin] == []
    ensures |free'| == NUM_SLABS && free'[bin] != []
    ensures HandedOut(free, free'[bin := free'[bin][1..]], blocks, blocks', size, page, free'[bin][0])
  {
    hide SlabSize, SlabBin, Needed, PerPage, Span;
    var n, len := PerPage(bin), SlabSize(bin);
    assert free'[bin] == Cut(page, len, n);
    assert Cut(page, len, n)[1..] == Cut(page, len, n - 1);
  }

  lemma CutFront(blocks: Blocks, at: nat, len: nat, n: nat)
    requires Outside(blocks, at, len) && n <= len
    ensures Outside(blocks, at, n) && Outside(blocks[at := n], at + n, len - n)
  {
  }

  lemma NotABlock(mem: map<nat, Cell>, blocks: Blocks, heads: seq<nat>, free: seq<seq<nat>>, live: map<nat, Live>,
                  a: nat, len: nat)
    requires HeapOk(mem, blocks, heads, free, live) && Outside(blocks, a, len) && len > 0
    ensures a !in blocks && a !in live
  {
    if a in blocks { BlockLength(mem, blocks, heads, free, live, a); }
  }

  lemma BlockLength(mem: map<nat, Cell>, blocks: Blocks, heads: seq<nat>, free: seq<seq<nat>>, live: map<nat, Live>,
                    a: nat)
    requires HeapOk(mem, blocks, heads, free, live) && a in blocks
    ensures blocks[a] > 0
  {
    if a !in live {
      var b :| 0 <= b < |free| && a in free[b];
      assert ListOk(mem, blocks, heads[b], free[b], SlabSize(b));
    }
  }

  class KernelHeap {
    var mem: map<nat, Cell>
    var heads: seq<nat>
    ghost var blocks: Blocks
    ghost var free: seq<seq<nat>>
    ghost var live: map<nat, Live>

    ghost predicate Valid()
      reads this
    {
      HeapOk(mem, blocks, heads, free, live)
    }

    constructor ()
      ensures Valid() && live == map[] && blocks == map[]
    {
      mem, heads := map[], seq(NUM_SLABS, _ => 0);
      blocks, free, live := map[], seq(NUM_SLABS, _ => []), map[];
    }

    /** Cuts a fresh page into blocks of one bin. */
    method Replenish(bin: nat, page: nat)
      requires Valid() && bin < NUM_SLABS && page != 0 && Granted(blocks, page, 1)
      modifies this`mem, this`heads, this`blocks, this`free
      ensures Valid() && Refilling(old(free), free, old(blocks), blocks, bin, page, PerPage(bin))
      ensures forall a :: a in live ==> a in mem && mem[a] == old(mem)[a] && a in old(mem)
    {
      hide HeapOk, Outside, Span, SlabSize, PerPage, Refilling, Granted;
      HeapShape(mem, blocks, heads, free, live);
      PageSplits(bin);
      RefillStarts(free, blocks, bin, page);
      GrantedParts(blocks, page, 1);
      var size := SlabSize(bin);
      var n, at := PerPage(bin), page;
      LiveCells(mem, blocks, heads, free, live);
      while n > 0
        invariant 0 <= n && Valid() && |free| == |heads| == NUM_SLABS && 0 < page <= at && at % 64 == 0
                  && at + Span(n, size) == page + PAGE_SIZE
        invariant Outside(blocks, at, Span(n, size))
        invariant n <= PerPage(bin) && at == page + Span(PerPage(bin) - n, size)
        invariant Refilling(old(free), free, old(blocks), blocks, bin, page, PerPage(bin) - n)
        invariant forall a :: a in live ==> a in mem && mem[a] == old(mem)[a] && a in old(mem)
      {
        SpanStep(n, size);
        SpanStep(PerPage(bin) - n + 1, size);
        RefillStep(old(free), free, old(blocks), blocks, bin, page, PerPage(bin) - n, at);
        NotABlock(mem, blocks, heads, free, live, at, Span(n, size));
        CutFront(blocks, at, Span(n, size), size);
        PutOk(mem, blocks, heads, free, live, bin, at, Cell(heads[bin], 0, 0));
        mem := mem[at := Cell(heads[bin], 0, 0)];
        heads := heads[bin := at];
        free := free[bin := [at] + free[bin]];
        blocks := blocks[at := size];
        assert live - {at} == live;
        at, n := at + size, n - 1;
      }
    }

    /** `kmalloc`, with the pages the page allocator would hand over: the payload lies in a block of its own, with room
        for the request exactly when its sum with the header does not wrap, and every other block is untouched. */
    method Kmalloc(size: nat, page: nat) returns (ptr: nat)
      requires Valid() && size < TWO64 && Granted(blocks, page, PagesFor(size))
      modifies this
      ensures Valid() && |old(free)| == NUM_SLABS
              && (ptr == 0 <==> size == 0 || (page == 0 && NeedsPages(old(free), size)))
      ensures ptr == 0 ==> live == old(live) && blocks == old(blocks) && free == old(free)
      ensures ptr != 0 ==> ptr > HEADER && ptr - HEADER !in old(live) && live == old(live)[ptr - HEADER := Entry(size)]
      ensures ptr != 0 ==> ptr - HEADER in blocks && (size + HEADER <= blocks[ptr - HEADER] <==> size < TWO64 - HEADER)
      ensures ptr != 0 ==> HandedOut(old(free), free, old(blocks), blocks, size, page, ptr - HEADER)
    {
      hide HeapOk, Outside, SlabSize, SlabBin, HandedOut, Granted, Needed;
      HeapShape(mem, blocks, heads, free, live);
      if size == 0 { return 0; }
      var bin := FindSlabBin((size + HEADER) % TWO64);
      if bin < NUM_SLABS {
        ptr := FromSlab(bin, size, page);
      } else {
        ptr := FromPages(size, page);
      }
      if ptr != 0 { LiveServes(mem, blocks, heads, free, live, ptr - HEADER); }
    }

    method FromSlab(bin: nat, size: nat, page: nat) returns (ptr: nat)
      requires Valid() && 0 < size < TWO64 && bin == SlabBin(Needed(size)) < NUM_SLABS
               && Granted(blocks, page, PagesFor(size))
      modifies this
      ensures Valid() && (ptr == 0 <==> page == 0 && |old(free)| == NUM_SLABS && old(free)[bin] == [])
      ensures ptr == 0 ==> live == old(live) && blocks == old(blocks) && free == old(free)
      ensures ptr != 0 ==>
                ptr > HEADER && ptr - HEADER !in old(live) && live == old(live)[ptr - HEADER := Live(size, 0, bin)]
      ensures ptr != 0 ==> HandedOut(old(free), free, old(blocks), blocks, size, page, ptr - HEADER)
    {
      hide HeapOk, Outside, SlabSize, SlabBin, Needed, HandedOut, Refilling, PerPage, Granted;
      HeapShape(mem, blocks, heads, free, live);
      EmptyBin(mem, blocks, heads, free, live, bin);
      NeededServes(size, SlabSize(bin));
      if heads[bin] == 0 {
        if page == 0 { return 0; }
        Replenish(bin, page);
        RefillHandedOut(old(free), free, old(blocks), blocks, size, page, bin);
      } else {
        SlabHandedOut(free, blocks, size, page, bin);
      }
      ptr := TakeBlock(bin, size);
    }

    method FromPages(size: nat, page: nat) returns (ptr: nat)
      requires Valid() && 0 < size < TWO64 && SlabBin(Needed(size)) == NUM_SLABS
               && Granted(blocks, page, PagesFor(size))
      modifies this
      ensures Valid() && (ptr == 0 <==> page == 0)
              && (ptr == 0 ==> live == old(live) && blocks == old(blocks) && free == old(free))
      ensures ptr != 0 ==>
                ptr > HEADER && ptr - HEADER !in old(live)
                && live == old(live)[ptr - HEADER := Live(size, PagesFor(size), DIRECT)]
      ensures ptr != 0 ==> HandedOut(old(free), free, old(blocks), blocks, size, page, ptr - HEADER)
    {
      hide HeapOk, Outside, SlabSize, SlabBin, PagesFor, HandedOut, Granted;
      HeapShape(mem, blocks, heads, free, live);
      if page == 0 { return 0; }
      var pages := PagesFor(size);
      GrantedParts(blocks, page, pages);
      DirectHandedOut(free, blocks, size, page);
      NeededServes(size, pages * PAGE_SIZE);
      NotABlock(mem, blocks, heads, free, live, page, pages * PAGE_SIZE);
      DirectOk(mem, blocks, heads, free, live, page, size, pages);
      mem := mem[page := Cell(Tag(size), pages, DIRECT)];
      blocks := blocks[page := pages * PAGE_SIZE];
      live := live[page := Live(size, pages, DIRECT)];
      ptr := page + HEADER;
    }

    method TakeBlock(bin: nat, size: nat) returns (ptr: nat)
      requires Valid() && bin < NUM_SLABS == |free| && free[bin] != [] && Serves(size, SlabSize(bin))
      modifies this`mem, this`heads, this`free, this`live
      ensures Valid() && ptr > HEADER && ptr - HEADER !in old(live)
              && live == old(live)[ptr - HEADER := Live(size, 0, bin)]
      ensures ptr == old(free)[bin][0] + HEADER && free == old(free)[bin := old(free)[bin][1..]]
    {
      hide HeapOk, SlabSize;
      HeapShape(mem, blocks, heads, free, live);
      TakenOk(mem, blocks, heads, free, live, bin, size);
      var node := heads[bin];
      heads := heads[bin := mem[node].word];
      free := free[bin := free[bin][1..]];
      mem := mem[node := Cell(Tag(size), 0, bin)];
      live := live[node := Live(size, 0, bin)];
      return node + HEADER;
    }

    /** `kfree` of a pointer `kmalloc` returned: a live block is released; a slab block freed already is left alone. */
    method Kfree(ptr: nat)
      requires Valid() && (ptr == 0 || (ptr >= HEADER && ptr - HEADER in blocks))
      modifies this
      ensures Valid()
      ensures ptr != 0 && ptr - HEADER in old(live) ==> live == old(live) - {ptr - HEADER}
      ensures ptr != 0 && ptr - HEADER in old(live) ==>
                Returned(old(free), free, old(blocks), blocks, old(live), ptr - HEADER)
      ensures ptr == 0 || ptr - HEADER !in old(live) ==>
                mem == old(mem) && heads == old(heads) && blocks == old(blocks) && free == old(free)
                && live == old(live)
    {
      hide HeapOk, SlabSize;
      if ptr == 0 { return; }
      HeapShape(mem, blocks, heads, free, live);
      var a := ptr - HEADER;
      BlockCell(mem, blocks, heads, free, live, a);
      if mem[a].Magic() != MAGIC {
        // Only a page-aligned pointer would be freed as a page here, and no payload is page aligned.
        return;
      }
      var bin, pages := mem[a].bin, mem[a].pages;
      if bin != DIRECT && bin < NUM_SLABS {
        PutOk(mem, blocks, heads, free, live, bin, a, Cell(heads[bin], pages, bin));
        assert blocks[a := SlabSize(bin)] == blocks;
        mem := mem[a := Cell(heads[bin], pages, bin)];
        heads := heads[bin := a];
        free := free[bin := [a] + free[bin]];
        live := live - {a};
        return;
      }
      DroppedOk(mem, blocks, heads, free, live, a, Cell(mem[a].word - MAGIC, pages, bin));
      mem := mem[a := Cell(mem[a].word - MAGIC, pages, bin)];
      blocks := blocks - {a};
      live := live - {a};
    }
  }

  lemma HeapShape(mem: map<nat, Cell>, blocks: Blocks, heads: seq<nat>, free: seq<seq<nat>>, live: map<nat, Live>)
    requires HeapOk(mem, blocks, heads, free, live)
    ensures |heads| == NUM_SLABS == |free|
  {
  }

  lemma LiveCells(mem: map<nat, Cell>, blocks: Blocks, heads: seq<nat>, free: seq<seq<nat>>, live: map<nat, Live>)
    requires HeapOk(mem, blocks, heads, free, live)
    ensures forall a :: a in live ==> a in mem
  {
  }

  lemma EmptyBin(mem: map<nat, Cell>, blocks: Blocks, heads: seq<nat>, free: seq<seq<nat>>, live: map<nat, Live>,
                 b: nat)
    requires HeapOk(mem, blocks, heads, free, live) && b < NUM_SLABS
    ensures heads[b] == 0 <==> free[b] == []
  {
    assert ListOk(mem, blocks, heads[b], free[b], SlabSize(b));
    if free[b] != [] { ListMember(mem, blocks, heads[b], free[b], SlabSize(b), 0); }
  }

  /** What the header of a block tells: the magic number exactly for live blocks; a free block's payload is not page
      aligned. */
  lemma BlockCell(mem: map<nat, Cell>, blocks: Blocks, heads: seq<nat>, free: seq<seq<nat>>, live: map<nat, Live>,
                  a: nat)
    requires HeapOk(mem, blocks, heads, free, live) && a in blocks
    ensures a in mem && (mem[a].Magic() == MAGIC <==> a in live) && (a !in live ==> !PageAligned(a + HEADER))
    ensures a in live ==>
              LiveOk(mem, blocks, a, live[a]) && mem[a].word >= MAGIC && mem[a].bin == live[a].bin
              && mem[a].pages == live[a].pages
  {
    hide ListOk, LiveOk, SlabSize, AllApart;
    if a in live {
      assert LiveOk(mem, blocks, a, live[a]);
      LiveHeader(mem, blocks, a, live[a]);
    } else {
      var b :| 0 <= b < |free| && a in free[b];
      assert ListOk(mem, blocks, heads[b], free[b], SlabSize(b));
      FreeBlockRefused(mem, blocks, heads[b], free[b], SlabSize(b), a);
    }
  }

  lemma LiveHeader(mem: map<nat, Cell>, blocks: Blocks, a: nat, l: Live)
    requires LiveOk(mem, blocks, a, l)
    ensures a in mem && mem[a].Magic() == MAGIC && mem[a].word >= MAGIC && mem[a].bin == l.bin
            && mem[a].pages == l.pages
  {
  }

  lemma LiveServes(mem: map<nat, Cell>, blocks: Blocks, heads: seq<nat>, free: seq<seq<nat>>, live: map<nat, Live>,
                   a: nat)
    requires HeapOk(mem, blocks, heads, free, live) && a in live
    ensures a in blocks && Serves(live[a].size, blocks[a])
  {
    assert LiveOk(mem, blocks, a, live[a]);
  }

  /** Live payloads, as long as asked for, never overlap each other or a free block. */
  lemma PayloadsApart(mem: map<nat, Cell>, blocks: Blocks, heads: seq<nat>, free: seq<seq<nat>>, live: map<nat, Live>,
                      a: nat, b: nat)
    requires HeapOk(mem, blocks, heads, free, live) && a in live && b in blocks && a != b
    ensures live[a].size + HEADER < TWO64 ==> Apart(a + HEADER, live[a].size, b, blocks[b])
    ensures live[a].size + HEADER < TWO64 && b in live && live[b].size + HEADER < TWO64 ==>
              Apart(a + HEADER, live[a].size, b + HEADER, live[b].size)
  {
    assert LiveOk(mem, blocks, a, live[a]);
    if b in live { assert LiveOk(mem, blocks, b, live[b]); }
  }
}
