/** kernel/memory/pmm: the bitmap allocator of physical page frames. */
module Pmm {
  import opened Machine
  import opened Regions
  import opened Bitmap
  import opened Ram

  /** `n` clear bits starting at `s`. */
  predicate FreeRun(used: seq<bool>, s: nat, n: nat)
  {
    s + n <= |used| && forall i :: s <= i < s + n ==> !used[i]
  }

  /** `used` with the `n` bits from `s` set to `b`. */
  function Marked(used: seq<bool>, s: nat, n: nat, b: bool): (r: seq<bool>)
    requires s + n <= |used|
    ensures |r| == |used|
    ensures forall i :: 0 <= i < |used| ==> r[i] == if s <= i < s + n then b else used[i]
  {
    if n == 0 then used else Marked(used, s, n - 1, b)[s + n - 1 := b]
  }

  lemma {:induction false} MarkedCount(used: seq<bool>, s: nat, n: nat)
    requires FreeRun(used, s, n)
    ensures Count(Marked(used, s, n, true), false) == Count(used, false) - n
  {
    if n > 0 {
      MarkedCount(used, s, n - 1);
      MarkOneMore(used, s, n, Marked(used, s, n - 1, true));
    }
  }

  lemma MarkOneMore(used: seq<bool>, s: nat, n: nat, before: seq<bool>)
    requires 0 < n && s + n <= |used| && before == Marked(used, s, n - 1, true) && !used[s + n - 1]
    ensures Count(Marked(used, s, n, true), false) == Count(before, false) - 1
  {
    CountUpdate(before, s + n - 1, true);
  }

  function Zeroed(frames: map<nat, Page>, first: nat, count: nat): (r: map<nat, Page>)
    ensures forall f :: f in r <==> f in frames || first <= f < first + count
    ensures forall f :: f in r ==> r[f] == if first <= f < first + count then Zero else frames[f]
  {
    if count == 0 then frames else Zeroed(frames, first, count - 1)[first + count - 1 := Zero]
  }

  /** No earlier start in `[from, below)` begins a free run of `n`. */
  predicate NoRunIn(used: seq<bool>, from: nat, below: int, n: nat)
  {
    forall s: nat :: from <= s < below ==> !FreeRun(used, s, n)
  }

  predicate WordFull(used: seq<bool>, w: int)
  {
    forall g :: w * 64 <= g < w * 64 + 64 && 0 <= g < |used| ==> used[g]
  }

  /** `f` is what a word-at-a-time search from the hint finds first: every word passed on the way
      round is full, and so is every bit below `f` in its own word. */
  ghost predicate FirstFit(used: seq<bool>, hint: nat, f: nat)
  {
    && 64 <= |used| && f < |used| && !used[f]
    && (forall g :: f / 64 * 64 <= g < f ==> used[g])
    && exists off :: 0 <= off < |used| / 64 && f / 64 == WordAfter(used, hint, off) && FullBefore(used, hint, off)
  }

  /** The word visited at step `off`: the search starts at the hint's word and wraps round once. */
  function WordAfter(used: seq<bool>, hint: nat, off: nat): int
  {
    var w, words := hint / 64 + off, |used| / 64;
    if w < words then w else w - words
  }

  predicate FullBefore(used: seq<bool>, hint: nat, off: nat)
  {
    forall o: nat :: o < off ==> WordFull(used, WordAfter(used, hint, o))
  }

  lemma WrapOnce(x: nat, m: nat)
    requires x < 2 * m
    ensures x % m == if x < m then x else x - m
  {
    if x >= m {
      assert x == m + (x - m);
    }
  }

  lemma FrameVisited(used: seq<bool>, hint: nat, f: nat)
    requires |used| >= 64 && |used| % 64 == 0 && hint <= |used| && f < |used|
    requires FullBefore(used, hint, |used| / 64)
    ensures used[f]
  {
    var words, start, w := |used| / 64, hint / 64, f / 64;
    var o := if w >= start then w - start else w + words - start;
    assert WordAfter(used, hint, o) == w;
    assert WordFull(used, WordAfter(used, hint, o));
  }

  /** Going once round the words visits every frame. */
  lemma AllWordsVisited(used: seq<bool>, hint: nat)
    requires |used| >= 64 && |used| % 64 == 0 && hint <= |used|
    requires FullBefore(used, hint, |used| / 64)
    ensures forall f :: 0 <= f < |used| ==> used[f]
  {
    forall f | 0 <= f < |used| ensures used[f] { FrameVisited(used, hint, f); }
  }

  /** The lowest clear bit of the first word that is not full. */
  lemma FirstFitFound(used: seq<bool>, hint: nat, off: nat, bit: nat)
    requires |used| >= 64 && |used| % 64 == 0 && off < |used| / 64 && FullBefore(used, hint, off)
    requires bit < 64 && 0 <= WordAfter(used, hint, off) < |used| / 64 && !used[WordAfter(used, hint, off) * 64 + bit]
    requires forall g :: WordAfter(used, hint, off) * 64 <= g < WordAfter(used, hint, off) * 64 + bit ==> used[g]
    ensures FirstFit(used, hint, WordAfter(used, hint, off) * 64 + bit)
  {
    var w := WordAfter(used, hint, off);
    var f := w * 64 + bit;
    assert f / 64 == w;
  }

  predicate Geometry(totalFrames: nat, maxManaged: u64)
  {
    totalFrames > 0 && totalFrames % 512 == 0 && maxManaged == totalFrames * PAGE_SIZE
  }

  /** The counters against the bits: `used` is the bitmap, `usable` the frames of usable RAM. */
  predicate Accounts(used: seq<bool>, usable: seq<bool>, reserved: nat, free: nat, taken: nat)
  {
    && |used| == |usable|
    && (forall f :: 0 <= f < |used| ==> used[f] || usable[f])
    && free == Count(used, false)
    && free + taken == Count(usable, true)
    && |used| == reserved + free + taken
  }

  predicate Rooted(usable: seq<bool>)
  {
    usable != [] && |usable| * PAGE_SIZE < TWO64 && !usable[0]
  }

  /** `usable` is the tracker's classification, and frame 0 is not part of it. */
  ghost predicate Anchored(usable: seq<bool>, regions: seq<Region>)
  {
    && Rooted(usable)
    && forall f {:trigger FrameUsable(regions, f)} :: 0 <= f < |usable| ==> (usable[f] <==> FrameUsable(regions, f))
  }

  ghost predicate FrameUsable(regions: seq<Region>, f: int)
  {
    0 <= f * PAGE_SIZE < TWO64 && UsableIn(regions, f * PAGE_SIZE)
  }

  predicate InRam(frames: map<nat, Page>, totalFrames: nat)
  {
    forall f :: 0 <= f < totalFrames ==> f in frames
  }

  /** The free counter is zero exactly when no frame is free. */
  lemma ExhaustedExactly(used: seq<bool>, usable: seq<bool>, reserved: nat, free: nat, taken: nat)
    requires Accounts(used, usable, reserved, free, taken)
    ensures free == 0 <==> forall f :: 0 <= f < |used| ==> used[f]
  {
    CountPositive(used, false);
  }

  lemma TakingKeepsAccounts(used: seq<bool>, usable: seq<bool>, reserved: nat, free: nat, taken: nat, s: nat, n: nat)
    requires Accounts(used, usable, reserved, free, taken) && FreeRun(used, s, n)
    ensures free >= n && Accounts(Marked(used, s, n, true), usable, reserved, free - n, taken + n)
  {
    MarkedCount(used, s, n);
  }

  /** Returning an allocated frame: the allocation counter cannot underflow. */
  lemma FreeingKeepsAccounts(used: seq<bool>, usable: seq<bool>, reserved: nat, free: nat, taken: nat, f: nat)
    requires Accounts(used, usable, reserved, free, taken) && f < |used| && used[f] && usable[f]
    ensures taken > 0 && Accounts(used[f := false], usable, reserved, free + 1, taken - 1)
  {
    CountWithin(used, usable);
    CountUpdate(used, f, false);
  }

  /** The lowest free run of `n` that lies within `[lo, hi)`. */
  predicate LowestRun(used: seq<bool>, lo: nat, hi: nat, n: nat, s: nat)
  {
    lo <= s && s + n <= hi && FreeRun(used, s, n) && NoRunIn(used, lo, s, n)
  }

  predicate NoRunWithin(used: seq<bool>, lo: nat, hi: int, n: nat)
  {
    forall s: nat :: lo <= s && s + n <= hi ==> !FreeRun(used, s, n)
  }

  /** The lowest run at or after the hint, or else the lowest run wholly below it. */
  predicate BestRun(used: seq<bool>, hint: nat, n: nat, s: nat)
  {
    || LowestRun(used, hint, |used|, n, s)
    || (NoRunWithin(used, hint, |used|, n) && LowestRun(used, 0, hint, n, s))
  }

  /** What `alloc_pages` cannot serve although frames may remain: a run straddling the hint is not seen. */
  predicate NoRunFound(used: seq<bool>, hint: nat, n: nat)
  {
    NoRunWithin(used, hint, |used|, n) && NoRunWithin(used, 0, hint, n)
  }

  class PhysicalMemoryManager {
    const ram: PhysicalMemory
    const tracker: ReservedMemoryTracker

    var bitmap: array<Word>
    var totalFrames: nat
    var usableFrames: nat
    var reservedFrames: nat
    var freeFrames: nat
    var allocatedFrames: nat
    var lastSearchFrame: nat
    var maxManaged: u64
    var forceAllocFailure: bool
    var initialized: bool

    /** The bitmap as one bit per frame, and the frames the tracker classes as usable. */
    ghost var used: seq<bool>
    ghost var usable: seq<bool>

    ghost predicate BitsAgree()
      reads this, bitmap
    {
      && bitmap.Length * 64 == totalFrames == |used|
      && forall f :: 0 <= f < |used| ==> used[f] == bitmap[f / 64][f % 64]
    }

    /** Bitmap and counters in order, and frame 0 never handed out. */
    ghost predicate Steady()
      reads this, bitmap, tracker
    {
      && initialized && Geometry(totalFrames, maxManaged) && lastSearchFrame <= totalFrames
      && BitsAgree()
      && Accounts(used, usable, reservedFrames, freeFrames, allocatedFrames) && usableFrames == Count(usable, true)
      && Rooted(usable) && Ordered(tracker.regions)
    }

    /** ... and the frames that can be handed out are those the tracker classes as usable. */
    ghost predicate Valid()
      reads this, bitmap, tracker
    {
      Steady() && Anchored(usable, tracker.regions)
    }

    /** What `free_page` checks: in use, usable to the tracker, and some frame allocated. */
    ghost predicate Freeable(f: int)
      reads this, tracker
    {
      0 <= f < |used| && used[f] && FrameUsable(tracker.regions, f) && allocatedFrames > 0
    }

    /** Frames handed out and not yet returned. */
    ghost predicate Allocated(f: int)
      reads this
    {
      0 <= f < |used| && f < |usable| && used[f] && usable[f]
    }

    constructor Create(ram: PhysicalMemory, tracker: ReservedMemoryTracker)
      ensures this.ram == ram && this.tracker == tracker && !initialized
      ensures fresh(bitmap) && bitmap.Length == 0 && !forceAllocFailure
    {
      this.ram, this.tracker := ram, tracker;
      bitmap := new Word[0];
      totalFrames, usableFrames, reservedFrames, freeFrames, allocatedFrames := 0, 0, 0, 0, 0;
      lastSearchFrame, maxManaged, forceAllocFailure, initialized := 0, 0, false, false;
      used, usable := [], [];
    }

    /** `test_bit`. */
    method TestBit(f: nat) returns (b: bool)
      requires BitsAgree() && f < totalFrames
      ensures b == used[f]
    {
      b := bitmap[f / 64][f % 64];
    }

    /** `set_bit` and `clear_bit`. */
    method PutBit(f: nat, b: bool)
      requires BitsAgree() && f < totalFrames
      modifies bitmap, this`used
      ensures BitsAgree() && used == old(used)[f := b]
    {
      bitmap[f / 64] := bitmap[f / 64][f % 64 := b];
      used := used[f := b];
    }

    method SetRun(s: nat, n: nat)
      requires BitsAgree() && s + n <= totalFrames
      modifies bitmap, this`used
      ensures BitsAgree() && used == Marked(old(used), s, n, true)
    {
      for i := 0 to n
        invariant BitsAgree() && used == Marked(old(used), s, i, true)
      {
        PutBit(s + i, true);
      }
    }

    static method NextWord(startWord: nat, off: nat, words: nat) returns (w: nat)
      requires startWord <= words && off < words
      ensures w < words && w == if startWord + off < words then startWord + off else startWord + off - words
    {
      WrapOnce(startWord + off, words);
      w := (startWord + off) % words;
    }

    /** The search loop of `alloc_page`; a negative result means every frame is in use. */
    method FindFree() returns (frame: int)
      requires BitsAgree() && totalFrames > 0 && lastSearchFrame <= totalFrames
      ensures frame < 0 ==> forall f :: 0 <= f < totalFrames ==> used[f]
      ensures frame >= 0 ==> FirstFit(used, lastSearchFrame, frame)
    {
      var words := totalFrames / 64;
      var startWord := lastSearchFrame / 64;
      assert words == bitmap.Length == |used| / 64;
      for off := 0 to words
        invariant FullBefore(used, lastSearchFrame, off)
      {
        var w := NextWord(startWord, off, words);
        assert w == WordAfter(used, lastSearchFrame, off);
        if bitmap[w] != AllOnes() {
          NotFull(bitmap[w]);
          var bit := LowestClear(bitmap[w], 0);
          frame := w * 64 + bit;
          if frame < totalFrames {
            LowestClearInWord(w);
            FirstFitFound(used, lastSearchFrame, off, bit);
            return;
          }
        }
        FullWord(w);
      }
      AllWordsVisited(used, lastSearchFrame);
      return -1;
    }

    lemma WordBit(w: nat, g: int)
      requires BitsAgree() && w < bitmap.Length && w * 64 <= g < w * 64 + 64
      ensures used[g] == bitmap[w][g - w * 64]
    {
      assert g / 64 == w && g % 64 == g - w * 64;
    }

    lemma FullWord(w: nat)
      requires BitsAgree() && w < bitmap.Length && bitmap[w] == AllOnes()
      ensures WordFull(used, w)
    {
      forall g | w * 64 <= g < w * 64 + 64 ensures used[g] { WordBit(w, g); }
    }

    lemma LowestClearInWord(w: nat)
      requires BitsAgree() && w < bitmap.Length && exists j: nat :: 0 <= j < 64 && !bitmap[w][j]
      ensures var bit := LowestClear(bitmap[w], 0);
              !used[w * 64 + bit] && forall g :: w * 64 <= g < w * 64 + bit ==> used[g]
    {
      var bit := LowestClear(bitmap[w], 0);
      WordBit(w, w * 64 + bit);
      forall g | w * 64 <= g < w * 64 + bit ensures used[g] { WordBit(w, g); }
    }

    /** Marks a free run as allocated and moves the search hint past it. */
    method TakeRun(s: nat, n: nat)
      requires Steady() && FreeRun(used, s, n)
      modifies bitmap, this`used, this`freeFrames, this`allocatedFrames, this`lastSearchFrame
      ensures Steady() && allocatedFrames == old(allocatedFrames) + n
      ensures used == Marked(old(used), s, n, true)
      ensures lastSearchFrame == s + n && freeFrames == old(freeFrames) - n
    {
      TakingKeepsAccounts(used, usable, reservedFrames, freeFrames, allocatedFrames, s, n);
      SetRun(s, n);
      freeFrames := freeFrames - n;
      allocatedFrames := allocatedFrames + n;
      lastSearchFrame := s + n;
    }

    /** `memset` of a block through the direct map. */
    method ZeroFrames(first: nat, count: nat)
      modifies ram
      ensures ram.frames == Zeroed(old(ram.frames), first, count)
    {
      for i := 0 to count
        invariant ram.frames == Zeroed(old(ram.frames), first, i)
      {
        ram.frames := ram.frames[first + i := Zero];
      }
    }

    /** `alloc_page` up to the zeroing of the frame. */
    method AllocFrame() returns (frame: nat)
      requires Steady()
      modifies this`used, this`freeFrames, this`allocatedFrames, this`lastSearchFrame, bitmap
      ensures Steady() && (frame != 0 ==> allocatedFrames == old(allocatedFrames) + 1)
      ensures frame == 0 <==> forceAllocFailure || old(freeFrames) == 0
      ensures frame == 0 ==> unchanged(this)
      ensures frame != 0 ==> FirstFit(old(used), old(lastSearchFrame), frame)
      ensures frame != 0 ==> used == old(used)[frame := true] && lastSearchFrame == frame + 1
      ensures frame != 0 ==> freeFrames == old(freeFrames) - 1
    {
      if freeFrames == 0 || forceAllocFailure { return 0; }
      CountPositive(used, false);
      frame := FindFree();
      assert used[0];
      TakeRun(frame, 1);
    }

    /** `alloc_page`: null exactly when failure is forced or no frame is free. */
    method AllocPage() returns (paddr: u64)
      requires initialized ==> Steady()
      modifies this`used, this`freeFrames, this`allocatedFrames, this`lastSearchFrame, bitmap, ram
      ensures (initialized ==> Steady()) && (old(Valid()) ==> Valid())
              && (paddr != 0 ==> allocatedFrames == old(allocatedFrames) + 1)
      ensures paddr == 0 <==> !initialized || forceAllocFailure || old(freeFrames) == 0
      ensures paddr == 0 ==> unchanged(this) && unchanged(ram)
      ensures paddr != 0 ==>
                var f := paddr / PAGE_SIZE;
                && paddr == f * PAGE_SIZE && FirstFit(old(used), old(lastSearchFrame), f)
                && used == old(used)[f := true] && lastSearchFrame == f + 1
                && ram.frames == if paddr < DIRECT_MAP_LIMIT then old(ram.frames)[f := Zero] else old(ram.frames)
      ensures paddr != 0 ==> freeFrames == old(freeFrames) - 1
    {
      if !initialized { return 0; }
      var frame := AllocFrame();
      paddr := frame * PAGE_SIZE;
      assert paddr / PAGE_SIZE == frame;
      if frame != 0 && paddr < DIRECT_MAP_LIMIT {
        ram.frames := ram.frames[frame := Zero];
      }
    }

    method GiveBack(frame: nat)
      requires Steady() && Freeable(frame)
      modifies this`used, this`freeFrames, this`allocatedFrames, this`lastSearchFrame, bitmap
      ensures BitsAgree() && (Steady() <==> old(Allocated(frame)))
      ensures used == old(used)[frame := false] && freeFrames == old(freeFrames) + 1
              && allocatedFrames == old(allocatedFrames) - 1
      ensures lastSearchFrame == if frame < old(lastSearchFrame) then frame else old(lastSearchFrame)
    {
      if usable[frame] { FreeingKeepsAccounts(used, usable, reservedFrames, freeFrames, allocatedFrames, frame); }
      PutBit(frame, false);
      freeFrames := freeFrames + 1;
      allocatedFrames := allocatedFrames - 1;
      if frame < lastSearchFrame {
        lastSearchFrame := frame;
      }
    }

    /** The validation half of `free_page`. Where tracker and bitmap agree, the underflow guard never fires. */
    method MayFree(paddr: u64) returns (ok: bool)
      requires Steady()
      ensures ok <==> PageAligned(paddr) && Freeable(paddr / PAGE_SIZE) && paddr != 0
      ensures Valid() ==> (ok <==> PageAligned(paddr) && Allocated(paddr / PAGE_SIZE))
    {
      if paddr % PAGE_SIZE != 0 || paddr == 0 || paddr >= maxManaged { return false; }
      var frame := paddr / PAGE_SIZE;
      assert frame * PAGE_SIZE == paddr;
      var reserved := tracker.IsReserved(paddr);
      assert reserved <==> !FrameUsable(tracker.regions, frame);
      if reserved { return false; }
      var taken := TestBit(frame);
      if !taken { return false; }
      if usable[frame] { FreeingKeepsAccounts(used, usable, reservedFrames, freeFrames, allocatedFrames, frame); }
      return allocatedFrames != 0;
    }

    /** `free_page` succeeds exactly on frames handed out and not yet returned, if tracker and bitmap agree.
        Otherwise it also frees a frame that was never handed out, as soon as any is: then the counters no longer
        match the bits. */
    method FreePage(paddr: u64) returns (ok: bool)
      requires initialized ==> Steady()
      modifies this`used, this`freeFrames, this`allocatedFrames, this`lastSearchFrame, bitmap
      ensures old(Valid()) ==> Valid() && (ok <==> PageAligned(paddr) && old(Allocated(paddr / PAGE_SIZE)))
      ensures ok <==> initialized && PageAligned(paddr) && old(Freeable(paddr / PAGE_SIZE)) && paddr != 0
      ensures initialized ==> (Steady() <==> !ok || old(Allocated(paddr / PAGE_SIZE)))
      ensures !ok ==> unchanged(this)
      ensures ok ==> used == old(used)[paddr / PAGE_SIZE := false]
    {
      if !initialized { return false; }
      ok := MayFree(paddr);
      if ok {
        GiveBack(paddr / PAGE_SIZE);
      }
    }

    /** The run search shared by both passes of `alloc_pages`. */
    method FindRun(lo: nat, hi: nat, n: nat) returns (s: int)
      requires BitsAgree() && n > 0 && hi <= totalFrames
      ensures s < 0 ==> NoRunWithin(used, lo, hi, n)
      ensures s >= 0 ==> LowestRun(used, lo, hi, n, s)
    {
      var runStart, runLen := 0, 0;
      var f := lo;
      while f < hi
        invariant lo <= f && (f <= hi || f == lo)
        invariant runLen < n && lo + runLen <= f
        invariant runLen > 0 ==> runStart == f - runLen
        invariant FreeRun(used, f - runLen, runLen) || hi < lo
        invariant NoRunIn(used, lo, f - runLen, n)
      {
        var b := TestBit(f);
        if !b {
          if runLen == 0 { runStart := f; }
          runLen := runLen + 1;
          if runLen == n { return runStart; }
        } else {
          runLen := 0;
        }
        f := f + 1;
      }
      return -1;
    }

    /** Both search passes of `alloc_pages`. */
    method FindBestRun(count: nat) returns (s: int)
      requires BitsAgree() && count > 0 && lastSearchFrame <= totalFrames
      ensures s < 0 <==> NoRunFound(used, lastSearchFrame, count)
      ensures s >= 0 ==> BestRun(used, lastSearchFrame, count, s)
    {
      s := FindRun(lastSearchFrame, totalFrames, count);
      if s < 0 {
        s := FindRun(0, lastSearchFrame, count);
      }
    }

    /** `alloc_pages` for two frames or more, up to the zeroing. */
    method AllocRun(count: nat) returns (s: nat)
      requires Steady() && count >= 2
      modifies this`used, this`freeFrames, this`allocatedFrames, this`lastSearchFrame, bitmap
      ensures Steady()
      ensures s == 0 <==> NoRunFound(old(used), old(lastSearchFrame), count)
      ensures s == 0 ==> unchanged(this)
      ensures s != 0 ==> BestRun(old(used), old(lastSearchFrame), count, s) && FreeRun(old(used), s, count)
      ensures s != 0 ==> used == Marked(old(used), s, count, true) && lastSearchFrame == s + count
    {
      var found := FindBestRun(count);
      if found < 0 { return 0; }
      s := found;
      assert used[0];
      assert FreeRun(used, s, count);
      TakeRun(s, count);
    }

    /** `alloc_pages`. */
    method AllocPages(count: nat) returns (paddr: u64)
      requires initialized ==> Steady()
      modifies this`used, this`freeFrames, this`allocatedFrames, this`lastSearchFrame, bitmap, ram
      ensures (initialized ==> Steady()) && (old(Valid()) ==> Valid())
      ensures paddr == 0 ==> unchanged(this) && unchanged(ram)
      ensures paddr == 0 <==>
                || !initialized || count == 0 || old(freeFrames) < count || forceAllocFailure
                || (count >= 2 && NoRunFound(old(used), old(lastSearchFrame), count))
      ensures paddr != 0 ==>
                var s := paddr / PAGE_SIZE;
                && paddr == s * PAGE_SIZE && FreeRun(old(used), s, count) && used == Marked(old(used), s, count, true)
                && lastSearchFrame == s + count
                && (count == 1 ==> FirstFit(old(used), old(lastSearchFrame), s))
                && (count >= 2 ==> BestRun(old(used), old(lastSearchFrame), count, s))
                && ram.frames ==
                     if ZeroedBlock(paddr, count) then Zeroed(old(ram.frames), s, count) else old(ram.frames)
    {
      hide Steady, Anchored, Marked, Zeroed, BestRun, NoRunFound;
      if !initialized || count == 0 || freeFrames < count || forceAllocFailure { return 0; }
      if count == 1 {
        paddr := AllocPage();
        if paddr != 0 { SingleRun(old(used), old(ram.frames), paddr / PAGE_SIZE); }
        return;
      }
      var s := AllocRun(count);
      if s != 0 { FrameAddress(this, s); }
      paddr := s * PAGE_SIZE;
      assert paddr / PAGE_SIZE == s;
      if s != 0 && paddr + count * PAGE_SIZE < DIRECT_MAP_LIMIT {
        ZeroFrames(s, count);
      }
    }

    /** `free_pages` succeeds exactly when every frame of the run is allocated; otherwise it still frees those that
        are. */
    method FreePages(paddr: u64, count: u64) returns (ok: bool)
      requires initialized ==> Valid()
      modifies this`used, this`freeFrames, this`allocatedFrames, this`lastSearchFrame, bitmap
      ensures initialized ==> Valid()
      ensures ok <==>
                initialized && count > 0 && PageAligned(paddr)
                && AllAllocated(old(used), usable, paddr / PAGE_SIZE, count)
      ensures ok ==> used == Marked(old(used), paddr / PAGE_SIZE, count, false)
      ensures initialized && SweepAllowed(paddr, count) ==> Swept(old(used), used, usable, paddr, count)
      ensures !(initialized && SweepAllowed(paddr, count)) ==> unchanged(this)
    {
      hide Valid, Swept, Marked;
      if initialized { TableSized(this); }
      if !initialized || count == 0 || paddr % PAGE_SIZE != 0 || paddr == 0 { return false; }
      if paddr > UINT64_MAX - (count * PAGE_SIZE) % TWO64 {
        RejectedRun(paddr, count, totalFrames);
        return false;
      }
      ok := FreeEach(paddr, count);
    }

    /** The loop of `free_pages`. */
    method FreeEach(paddr: u64, count: u64) returns (ok: bool)
      requires Valid() && PageAligned(paddr) && count > 0
      modifies this`used, this`freeFrames, this`allocatedFrames, this`lastSearchFrame, bitmap
      ensures Valid() && Swept(old(used), used, usable, paddr, count)
              && RunFreed(old(used), used, usable, paddr / PAGE_SIZE, count, ok)
    {
      hide Steady, Anchored, Swept, RunFreed;
      ok := true;
      ghost var before := used;
      TableSized(this);
      SweepStart(used, usable, paddr);
      for i := 0 to count
        invariant Valid() && Swept(before, used, usable, paddr, i)
                  && RunFreed(before, used, usable, paddr / PAGE_SIZE, i, ok)
      {
        var cur := (paddr + i * PAGE_SIZE) % TWO64;
        ghost var mid := used;
        TableSized(this);
        PageReached(paddr, i);
        var freed := FreePage(cur);
        SweepStep(before, mid, used, usable, paddr, i, freed);
        RunStep(before, mid, used, usable, paddr, i, ok, freed);
        if !freed { ok := false; }
      }
    }

    // -------------------------------------------------------------- boot-time construction

    /** `reserve_range`. */
    method ReserveRange(start: u64, end: u64)
      requires BitsAgree() && maxManaged == totalFrames * PAGE_SIZE
      modifies bitmap, this`used
      ensures BitsAgree() && used == Reserved(old(used), start, end)
    {
      ReservedNothing(used, start, end, maxManaged);
      if end <= start { return; }
      var s := AlignDown(start, PAGE_SIZE);
      var e := AlignUp(end, PAGE_SIZE);
      if e > maxManaged { e := maxManaged; }
      if s >= maxManaged { return; }
      AlignedFrames(start, end, maxManaged);
      ReservedIsMarked(used, start, end, maxManaged, s / PAGE_SIZE, e / PAGE_SIZE);
      SetRun(s / PAGE_SIZE, e / PAGE_SIZE - s / PAGE_SIZE);
    }

    /** The inner loop that marks one usable region free. */
    method ClearRange(lo: nat, hi: nat)
      requires BitsAgree() && lo <= hi <= totalFrames
      modifies bitmap, this`used
      ensures BitsAgree() && used == Marked(old(used), lo, hi - lo, false)
    {
      for f := lo to hi
        invariant BitsAgree() && used == Marked(old(used), lo, f - lo, false)
      {
        PutBit(f, false);
      }
    }

    /** Step 4 of `init`: every usable region of the tracker becomes free. */
    method ClearUsable()
      requires BitsAgree() && maxManaged == totalFrames * PAGE_SIZE
      requires AllProper(tracker.regions) && forall f :: 0 <= f < |used| ==> used[f]
      modifies bitmap, this`used
      ensures BitsAgree() && forall f :: 0 <= f < |used| ==> (used[f] <==> !FrameUsable(tracker.regions, f))
    {
      var i := 0;
      while i < |tracker.regions|
        invariant i <= |tracker.regions| && BitsAgree()
        invariant forall f :: 0 <= f < |used| ==> (used[f] <==> !FrameUsable(tracker.regions[..i], f))
      {
        var r := tracker.regions[i];
        assert tracker.regions[..i+1] == tracker.regions[..i] + [r];
        ghost var before := used;
        var end := if r.end > maxManaged then maxManaged else r.end;
        if r.IsAvailable() && r.start < end {
          ClearRange(r.start / PAGE_SIZE, end / PAGE_SIZE);
        }
        forall f | 0 <= f < |used| ensures used[f] <==> !FrameUsable(tracker.regions[..i+1], f) {
          assert before[f] <==> !FrameUsable(tracker.regions[..i], f);
          FrameUsableAppend(tracker.regions[..i], r, f);
        }
        i := i + 1;
      }
      assert tracker.regions[..i] == tracker.regions;
    }

    /** Step 6 of `init`: tally the clear bits. */
    method TallyFree() returns (n: nat)
      requires BitsAgree()
      ensures n == Count(used, false)
    {
      n := 0;
      for f := 0 to totalFrames
        invariant n == Count(used[..f], false)
      {
        assert used[..f+1][..f] == used[..f];
        var b := TestBit(f);
        if !b { n := n + 1; }
      }
      assert used[..totalFrames] == used;
    }

    /** Step 5 of `init`, the overrides (A) to (E). All they add are the pages inside which an empty firmware entry
        starts. */
    method ApplyOverrides(mmap: seq<MmapEntry>, kernelStart: u64, kernelEnd: u64, mb2: u64, mb2Size: u64, bits: u64,
                          bitsSize: u64)
      requires BitsAgree() && maxManaged == totalFrames * PAGE_SIZE
      requires SaneBoot(mmap, kernelStart, kernelEnd, mb2, mb2Size) && 0 < bitsSize && bits + bitsSize <= PHYSICAL_LIMIT
      requires tracker.raw ==
                 Populated(mmap, kernelStart, kernelEnd, mb2, mb2Size)
                   + [PageSpan(bits, bitsSize, "PMM Allocation Bitmap")]
      requires NormalForm(tracker.raw, tracker.regions) && Complement(used, tracker.regions)
      modifies bitmap, this`used
      ensures BitsAgree() && StraysMarked(old(used), used, mmap)
    {
      hide StraysMarked, Complement;
      ComplementCovers(used, tracker.regions);
      RawTableHolds(mmap, kernelStart, kernelEnd, mb2, mb2Size);
      ReserveTracked(0, 0x100000, LOW_MEMORY);
      KernelCovers(kernelStart, kernelEnd);
      ReserveTracked(AlignDown(kernelStart, PAGE_SIZE), AlignUp(kernelEnd, PAGE_SIZE),
        KernelImage(kernelStart, kernelEnd));
      if mb2 != 0 && mb2Size > 0 {
        SpanCovers(mb2, mb2Size, "Multiboot2 Information Block");
        ReserveTracked(AlignDown(mb2, PAGE_SIZE), AlignUp(Add64(mb2, mb2Size), PAGE_SIZE),
          PageSpan(mb2, mb2Size, "Multiboot2 Information Block"));
      }
      SpanCovers(bits, bitsSize, "PMM Allocation Bitmap");
      assert tracker.raw[|tracker.raw|-1] == PageSpan(bits, bitsSize, "PMM Allocation Bitmap");
      ReserveTracked(bits, Add64(bits, bitsSize), PageSpan(bits, bitsSize, "PMM Allocation Bitmap"));
      ReserveFirmware(mmap);
    }

    method ReserveTracked(start: u64, end: u64, ghost r: Region)
      requires BitsAgree() && maxManaged == totalFrames * PAGE_SIZE
      requires NormalForm(tracker.raw, tracker.regions) && HoldsReserved(used, tracker.regions)
      requires r in tracker.raw && Covers(r, start, end)
      modifies bitmap, this`used
      ensures BitsAgree() && used == old(used)
    {
      ReserveRange(start, end);
      OverrideChangesNothing(old(used), tracker.raw, tracker.regions, r, start, end);
    }

    /** Override (E): every firmware entry that is not usable RAM. */
    method ReserveFirmware(mmap: seq<MmapEntry>)
      requires BitsAgree() && maxManaged == totalFrames * PAGE_SIZE
      requires forall e :: e in mmap ==>
                 SaneEntry(e) && (!e.IsAvailable() && e.length != 0 ==> FromEntry(e) in tracker.raw)
      requires NormalForm(tracker.raw, tracker.regions) && HoldsReserved(used, tracker.regions)
      modifies bitmap, this`used
      ensures BitsAgree() && StraysMarked(old(used), used, mmap)
    {
      hide NormalForm, StraysMarked, HoldsReserved, Covers;
      NoStrays(used);
      assert mmap[..0] == [];
      for i := 0 to |mmap|
        invariant BitsAgree() && HoldsReserved(used, tracker.regions) && StraysMarked(old(used), used, mmap[..i])
      {
        var e := mmap[i];
        MoreStrays(old(used), used, tracker.regions, mmap, i);
        if !e.IsAvailable() {
          var s := AlignDown(e.base, PAGE_SIZE);
          var t := AlignUp(Add64(e.base, e.length), PAGE_SIZE);
          if e.length != 0 {
            EntryCovers(e);
            ReserveTracked(s, t, FromEntry(e));
          } else {
            ReserveRange(s, t);
          }
        }
      }
      assert mmap[..|mmap|] == mmap;
    }

    /** Step 2 of `init`: the lowest page-aligned place for the bitmap, in the first usable entry that has one above the
        kernel, meeting neither the Multiboot2 block nor a tracked reservation. */
    method FindPlacement(mmap: seq<MmapEntry>, from: u64, size: u64, mb2: u64, mb2Size: u64)
      returns (found: bool, at: u64, ghost i: nat)
      requires tracker.Valid() && 0 < size && from <= PHYSICAL_LIMIT && PageAligned(from)
      requires (forall e :: e in mmap ==> SaneEntry(e)) && mb2 + mb2Size <= PHYSICAL_LIMIT
      ensures found ==> i < |mmap| && Holds(tracker.regions, mmap[i], from, size, mb2, mb2Size, at)
      ensures found ==> NoneBelow(tracker.regions, mmap[i], from, size, mb2, mb2Size, at)
      ensures NoneIn(tracker.regions, mmap[..if found then i else |mmap|], from, size, mb2, mb2Size)
    {
      hide ReservedMemoryTracker.Valid, Holds, NoneBelow;
      i := 0;
      for j := 0 to |mmap|
        invariant NoneIn(tracker.regions, mmap[..j], from, size, mb2, mb2Size)
      {
        var e := mmap[j];
        NoneInMore(tracker.regions, mmap, j, from, size, mb2, mb2Size);
        if !e.IsAvailable() { continue; }
        found, at := PlaceInEntry(e, from, size, mb2, mb2Size);
        if found {
          i := j;
          return;
        }
      }
      assert mmap[..|mmap|] == mmap;
      return false, 0, 0;
    }

    method PlaceInEntry(e: MmapEntry, from: u64, size: u64, mb2: u64, mb2Size: u64) returns (found: bool, at: u64)
      requires tracker.Valid() && 0 < size && from <= PHYSICAL_LIMIT && PageAligned(from)
      requires e.IsAvailable() && SaneEntry(e) && mb2 + mb2Size <= PHYSICAL_LIMIT
      ensures found ==>
                Holds(tracker.regions, e, from, size, mb2, mb2Size, at)
                && NoneBelow(tracker.regions, e, from, size, mb2, mb2Size, at)
      ensures !found ==> NoneBelow(tracker.regions, e, from, size, mb2, mb2Size, TWO64)
    {
      hide ReservedMemoryTracker.Valid, Holds, NoneBelow, AlignUp, PageAligned;
      var end := Add64(e.base, e.length);
      RoundedStart(e.base, PAGE_SIZE);
      at := if e.base > from then AlignUp(e.base, PAGE_SIZE) else from;
      NoneBelowStart(tracker.regions, e, from, size, mb2, mb2Size, at);
      while at + size <= end
        invariant PageAligned(at) && from <= at && e.base <= at
                  && NoneBelow(tracker.regions, e, from, size, mb2, mb2Size, at)
        decreases end - at
      {
        NextPage(at);
        var mb2Collision := at < mb2 + mb2Size && at + size > mb2;
        var reservedCollision := tracker.OverlapsReserved(at, size);
        HoldsExactly(tracker.regions, e, from, size, mb2, mb2Size, at, mb2Collision, reservedCollision);
        if !mb2Collision && !reservedCollision { return true, at; }
        NoneBelowStep(tracker.regions, e, from, size, mb2, mb2Size, at);
        at := at + PAGE_SIZE;
      }
      NoneBelowEnd(tracker.regions, e, from, size, mb2, mb2Size, at);
      return false, 0;
    }

    /** `init` fails exactly when there is no usable RAM or no room for the bitmap. Afterwards a frame is free
        exactly when the tracker classes it as usable and no empty reserved entry starts inside it; so bitmap and
        tracker agree, and the allocator's invariant holds, exactly when there is no such entry. */
    method Init(mmap: seq<MmapEntry>, kernelStart: u64, kernelEnd: u64, mb2: u64, mb2Size: u64) returns (ok: bool)
      requires SaneBoot(mmap, kernelStart, kernelEnd, mb2, mb2Size)
      requires tracker.Valid() && tracker.raw == Populated(mmap, kernelStart, kernelEnd, mb2, mb2Size)
      modifies this, tracker
      ensures ok == initialized && (ok ==> tracker.Valid())
      ensures ok <==> MaxUsable(mmap) > 0
                      && !NoneIn(old(tracker.regions), mmap, AlignUp(kernelEnd, PAGE_SIZE),
                           BitmapBytes(ManagedLimit(mmap)), mb2, mb2Size)
      ensures ok ==>
                maxManaged == ManagedLimit(mmap) && allocatedFrames == 0 && lastSearchFrame == 0 && !forceAllocFailure
      ensures ok ==>
                exists at ::
                  Placement(old(tracker.regions), mmap, AlignUp(kernelEnd, PAGE_SIZE), BitmapBytes(ManagedLimit(mmap)),
                    mb2, mb2Size, at)
                  && tracker.raw ==
                       old(tracker.raw) + [PageSpan(at, BitmapBytes(ManagedLimit(mmap)), "PMM Allocation Bitmap")]
      ensures ok ==> Overridden(used, tracker.regions, mmap)
      ensures ok ==> (Complement(used, tracker.regions) <==> NoStrayUsable(|used|, tracker.regions, mmap))
      ensures ok ==> Steady() && usable == Negated(used) && (Valid() <==> NoStrayUsable(|used|, tracker.regions, mmap))
      ensures ok ==> fresh(bitmap)
    {
      hide Steady, Valid, ReservedMemoryTracker.Valid, Complement, Populated, NoneIn, NoneBelow, Overridden,
           NoStrayUsable;
      initialized, forceAllocFailure := false, false;
      var maxUsable := HighestUsable(mmap);
      MaxUsableBound(mmap);
      if maxUsable == 0 { return false; }
      maxManaged := AlignUp(maxUsable, LARGE_PAGE);
      totalFrames := maxManaged / PAGE_SIZE;
      ManagedGeometry(maxUsable);
      var sizeBytes := ((totalFrames + 7) / 8 + 7) / 8 * 8;
      var found, at, i := FindPlacement(mmap, AlignUp(kernelEnd, PAGE_SIZE), sizeBytes, mb2, mb2Size);
      assert mmap[..|mmap|] == mmap;
      if !found { return false; }
      HoldsSomewhere(tracker.regions, mmap, i, AlignUp(kernelEnd, PAGE_SIZE), sizeBytes, mb2, mb2Size, at);
      RawTableHolds(mmap, kernelStart, kernelEnd, mb2, mb2Size);
      var registered := tracker.RegisterPmmBitmap(at, sizeBytes);
      FillBitmap(mmap, kernelStart, kernelEnd, mb2, mb2Size, at, sizeBytes);
      return true;
    }

    /** Step 1 of `init`. */
    method HighestUsable(mmap: seq<MmapEntry>) returns (maxUsable: u64)
      ensures maxUsable == MaxUsable(mmap)
      ensures forall e :: e in mmap && e.IsAvailable() ==> Add64(e.base, e.length) <= maxUsable
      ensures maxUsable > 0 ==> exists e :: e in mmap && e.IsAvailable() && Add64(e.base, e.length) == maxUsable
    {
      maxUsable := 0;
      for i := 0 to |mmap|
        invariant maxUsable == MaxUsable(mmap[..i])
        invariant forall j :: 0 <= j < i && mmap[j].IsAvailable() ==> Add64(mmap[j].base, mmap[j].length) <= maxUsable
        invariant maxUsable > 0 ==>
                    exists j :: 0 <= j < i && mmap[j].IsAvailable() && Add64(mmap[j].base, mmap[j].length) == maxUsable
      {
        assert mmap[..i+1][..i] == mmap[..i];
        if mmap[i].IsAvailable() {
          var end := Add64(mmap[i].base, mmap[i].length);
          if end > maxUsable { maxUsable := end; }
        }
      }
      assert mmap[..|mmap|] == mmap;
    }

    /** Steps 3 to 6 of `init`, once the bitmap has been placed and registered. */
    method FillBitmap(mmap: seq<MmapEntry>, kernelStart: u64, kernelEnd: u64, mb2: u64, mb2Size: u64, at: u64,
                      sizeBytes: u64)
      requires Geometry(totalFrames, maxManaged) && maxManaged <= PHYSICAL_LIMIT
      requires SaneBoot(mmap, kernelStart, kernelEnd, mb2, mb2Size) && 0 < sizeBytes && at + sizeBytes <= PHYSICAL_LIMIT
      requires tracker.Valid()
      requires tracker.raw ==
                 Populated(mmap, kernelStart, kernelEnd, mb2, mb2Size)
                   + [PageSpan(at, sizeBytes, "PMM Allocation Bitmap")]
      modifies this
      ensures initialized && allocatedFrames == 0 && lastSearchFrame == 0
      ensures maxManaged == old(maxManaged) && forceAllocFailure == old(forceAllocFailure)
      ensures Overridden(used, tracker.regions, mmap) && fresh(bitmap)
      ensures Complement(used, tracker.regions) <==> NoStrayUsable(|used|, tracker.regions, mmap)
      ensures Steady() && usable == Negated(used) && (Valid() <==> NoStrayUsable(|used|, tracker.regions, mmap))
    {
      hide Steady, Valid, Rooted, Complement, Overridden, NoStrayUsable, Anchored, NormalForm;
      MarkBitmap(mmap, kernelStart, kernelEnd, mb2, mb2Size, at, sizeBytes);
      RawTableHolds(mmap, kernelStart, kernelEnd, mb2, mb2Size);
      AgreesExactly(used, tracker.regions, mmap);
      FreshAnchor(used, tracker.raw, tracker.regions, mmap);
      TrackerOrdered(tracker.raw, tracker.regions);
      FinishInit();
    }

    /** Steps 3 to 5 of `init`. */
    method MarkBitmap(mmap: seq<MmapEntry>, kernelStart: u64, kernelEnd: u64, mb2: u64, mb2Size: u64, at: u64,
                      sizeBytes: u64)
      requires Geometry(totalFrames, maxManaged) && maxManaged <= PHYSICAL_LIMIT
      requires SaneBoot(mmap, kernelStart, kernelEnd, mb2, mb2Size) && 0 < sizeBytes && at + sizeBytes <= PHYSICAL_LIMIT
      requires tracker.Valid()
      requires tracker.raw ==
                 Populated(mmap, kernelStart, kernelEnd, mb2, mb2Size)
                   + [PageSpan(at, sizeBytes, "PMM Allocation Bitmap")]
      modifies this`bitmap, this`used
      ensures BitsAgree() && Overridden(used, tracker.regions, mmap) && fresh(bitmap)
    {
      hide StraysMarked, NormalForm;
      TrackerOrdered(tracker.raw, tracker.regions);
      bitmap := new Word[totalFrames / 64](_ => AllOnes());
      used := AllUsed(totalFrames);
      ClearUsable();
      ghost var before := used;
      ApplyOverrides(mmap, kernelStart, kernelEnd, mb2, mb2Size, at, sizeBytes);
      StraysOverride(before, used, tracker.regions, mmap);
    }

    /** Step 6 of `init`. */
    method FinishInit()
      requires BitsAgree() && Geometry(totalFrames, maxManaged)
      requires Ordered(tracker.regions) && Rooted(Negated(used))
      modifies this`freeFrames, this`usableFrames, this`reservedFrames, this`allocatedFrames, this`lastSearchFrame,
               this`initialized, this`usable
      ensures initialized && allocatedFrames == 0 && lastSearchFrame == 0 && usable == Negated(used)
      ensures Steady() && (Valid() <==> Anchored(Negated(used), tracker.regions))
    {
      hide Anchored, Accounts, Rooted, Count, Geometry, Ordered, Negated;
      var free := TallyFree();
      FreshAccounts(used);
      freeFrames, usableFrames := free, free;
      reservedFrames := totalFrames - usableFrames;
      allocatedFrames, lastSearchFrame, initialized := 0, 0, true;
      usable := Negated(used);
    }
  }

  lemma FreshAccounts(used: seq<bool>)
    ensures Count(used, false) <= |used| && Count(Negated(used), true) == Count(used, false)
    ensures Accounts(used, Negated(used), |used| - Count(used, false), Count(used, false), 0)
  {
    CountTotal(used);
    CountComplement(used, Negated(used));
  }

  lemma FreshAnchor(used: seq<bool>, raw: seq<Region>, regions: seq<Region>, mmap: seq<MmapEntry>)
    requires Overridden(used, regions, mmap) && used != [] && NormalForm(raw, regions) && LOW_MEMORY in raw
    ensures Rooted(Negated(used)) && (Anchored(Negated(used), regions) <==> Complement(used, regions))
  {
    hide NormalForm;
    ReservationWins(raw, regions, LOW_MEMORY, 0);
    assert !FrameUsable(regions, 0);
    var usable := Negated(used);
    if Anchored(usable, regions) {
      forall f | 0 <= f < |used| ensures used[f] <==> !FrameUsable(regions, f) { assert usable[f] == !used[f]; }
    }
  }

  lemma TrackerOrdered(raw: seq<Region>, regions: seq<Region>)
    requires NormalForm(raw, regions)
    ensures Ordered(regions) && AllProper(regions)
  {
  }

  function Negated(bits: seq<bool>): (r: seq<bool>)
    ensures |r| == |bits| && forall i :: 0 <= i < |bits| ==> r[i] == !bits[i]
  {
    seq(|bits|, i requires 0 <= i < |bits| => !bits[i])
  }

  function AllUsed(n: nat): (r: seq<bool>)
    ensures |r| == n && forall i :: 0 <= i < n ==> r[i]
  {
    seq(n, _ => true)
  }

  const LARGE_PAGE: int := 0x20_0000

  /** The highest end of a usable firmware entry. */
  function MaxUsable(mmap: seq<MmapEntry>): u64
  {
    if mmap == [] then 0
    else
      var best, e := MaxUsable(mmap[..|mmap|-1]), mmap[|mmap|-1];
      if e.IsAvailable() && Add64(e.base, e.length) > best then Add64(e.base, e.length) else best
  }

  lemma {:induction false} MaxUsableBound(mmap: seq<MmapEntry>)
    requires forall e :: e in mmap ==> SaneEntry(e)
    ensures MaxUsable(mmap) <= PHYSICAL_LIMIT
  {
    if mmap != [] {
      MaxUsableBound(mmap[..|mmap|-1]);
      assert SaneEntry(mmap[|mmap|-1]);
    }
  }

  function ManagedLimit(mmap: seq<MmapEntry>): u64
  {
    AlignUp(MaxUsable(mmap), LARGE_PAGE)
  }

  /** The 2 MiB rounding makes the frame count a multiple of 512, hence of the word size. */
  lemma ManagedGeometry(maxUsable: u64)
    requires 0 < maxUsable <= PHYSICAL_LIMIT
    ensures var limit := AlignUp(maxUsable, LARGE_PAGE);
            && Geometry(limit / PAGE_SIZE, limit) && limit <= PHYSICAL_LIMIT
            && ((limit / PAGE_SIZE + 7) / 8 + 7) / 8 * 8 == limit / PAGE_SIZE / 64 * 8 > 0
  {
    var limit := AlignUp(maxUsable, LARGE_PAGE);
    var k := limit / LARGE_PAGE;
    assert limit == k * LARGE_PAGE;
    assert limit / PAGE_SIZE == k * 512;
  }

  lemma {:induction false} CountComplement(used: seq<bool>, usable: seq<bool>)
    requires |used| == |usable| && forall f :: 0 <= f < |used| ==> usable[f] == !used[f]
    ensures Count(usable, true) == Count(used, false)
  {
    if used != [] { CountComplement(used[..|used|-1], usable[..|usable|-1]); }
  }

  // ---------------------------------------------------------------- boot maps

  /** x86-64 physical addresses have at most 52 bits. */
  const PHYSICAL_LIMIT: int := 0x10_0000_0000_0000

  /** No wrap-around. */
  predicate SaneEntry(e: MmapEntry)
  {
    e.base + e.length <= if e.IsAvailable() then PHYSICAL_LIMIT else TWO64 - PAGE_SIZE
  }

  predicate SaneBoot(mmap: seq<MmapEntry>, kernelStart: u64, kernelEnd: u64, mb2: u64, mb2Size: u64)
  {
    && |mmap| <= 64 && (forall e :: e in mmap ==> SaneEntry(e))
    && kernelStart < kernelEnd <= PHYSICAL_LIMIT && mb2 + mb2Size <= PHYSICAL_LIMIT
  }

  /** A frame is in use exactly when the tracker does not class it as usable. */
  ghost predicate Complement(used: seq<bool>, regions: seq<Region>)
  {
    |used| * PAGE_SIZE < TWO64 && forall f :: 0 <= f < |used| ==> (used[f] <==> !FrameUsable(regions, f))
  }

  function KernelImage(kernelStart: u64, kernelEnd: u64): Region
    requires kernelStart < kernelEnd
  {
    Region(kernelStart, kernelEnd, kernelEnd - kernelStart, RESERVED, "Kernel Physical Image")
  }

  lemma RawTableHolds(mmap: seq<MmapEntry>, kernelStart: u64, kernelEnd: u64, mb2: u64, mb2Size: u64)
    requires |mmap| <= 64 && kernelStart < kernelEnd
    ensures var raw := Populated(mmap, kernelStart, kernelEnd, mb2, mb2Size);
            && |raw| < MAX_REGIONS && LOW_MEMORY in raw && KernelImage(kernelStart, kernelEnd) in raw
            && (mb2 != 0 && mb2Size > 0 ==> PageSpan(mb2, mb2Size, "Multiboot2 Information Block") in raw)
            && (forall e :: e in mmap && e.length != 0 ==> FromEntry(e) in raw)
  {
    var base := Explicit(kernelStart, kernelEnd, mb2, mb2Size);
    assert base[0] == LOW_MEMORY && base[1] == KernelImage(kernelStart, kernelEnd);
    assert mb2 != 0 && mb2Size > 0 ==> base[2] == PageSpan(mb2, mb2Size, "Multiboot2 Information Block");
    ImportedMembers(base, mmap);
  }

  /** Every page of `[start, end)` is a page of the tracked reservation `r`. */
  predicate Covers(r: Region, start: u64, end: u64)
  {
    && r.IsReserved() && r.length > 0 && r.start + r.length <= TWO64 - PAGE_SIZE
    && AlignDown(r.start, PAGE_SIZE) <= AlignDown(start, PAGE_SIZE)
    && AlignUp(end, PAGE_SIZE) <= AlignUp(r.start + r.length, PAGE_SIZE)
  }

  lemma KernelCovers(kernelStart: u64, kernelEnd: u64)
    requires kernelStart < kernelEnd <= PHYSICAL_LIMIT
    ensures Covers(KernelImage(kernelStart, kernelEnd), AlignDown(kernelStart, PAGE_SIZE),
              AlignUp(kernelEnd, PAGE_SIZE))
  {
    hide AlignDown, AlignUp;
    DownTwice(kernelStart);
    UpTwice(kernelEnd);
  }

  lemma DownTwice(x: u64)
    ensures AlignDown(AlignDown(x, PAGE_SIZE), PAGE_SIZE) == AlignDown(x, PAGE_SIZE)
  {
    var d := x - x % PAGE_SIZE;
    assert d % PAGE_SIZE == 0;
  }

  lemma UpTwice(x: u64)
    ensures x <= TWO64 - PAGE_SIZE ==> AlignUp(AlignUp(x, PAGE_SIZE), PAGE_SIZE) == AlignUp(x, PAGE_SIZE)
  {
    if x <= TWO64 - PAGE_SIZE {
      var u := AlignUp(x, PAGE_SIZE);
      assert u % PAGE_SIZE == 0;
    }
  }

  lemma SpanCovers(start: u64, size: u64, name: string)
    requires 0 < size && start + size <= PHYSICAL_LIMIT
    ensures Covers(PageSpan(start, size, name), start, Add64(start, size))
    ensures Covers(PageSpan(start, size, name), AlignDown(start, PAGE_SIZE), AlignUp(Add64(start, size), PAGE_SIZE))
  {
    hide AlignDown, AlignUp, PageUpWrapping;
    WrapNotNeeded(start + size);
    DownTwice(start);
    UpTwice(start + size);
    SpanRounds(start, size);
  }

  lemma WrapNotNeeded(x: u64)
    requires x <= PHYSICAL_LIMIT
    ensures PageUpWrapping(x) == AlignUp(x, PAGE_SIZE)
  {
  }

  lemma SpanRounds(start: u64, size: u64)
    requires 0 < size && start + size <= PHYSICAL_LIMIT
    ensures AlignDown(start, PAGE_SIZE) < AlignUp(start + size, PAGE_SIZE) <= PHYSICAL_LIMIT
  {
  }

  lemma EntryCovers(e: MmapEntry)
    requires SaneEntry(e) && !e.IsAvailable() && e.length != 0
    ensures Covers(FromEntry(e), AlignDown(e.base, PAGE_SIZE), AlignUp(Add64(e.base, e.length), PAGE_SIZE))
  {
    hide AlignDown, AlignUp;
    DownTwice(e.base);
    UpTwice(e.base + e.length);
  }

  // ---------------------------------------------------------------- empty firmware entries

  /** An empty reserved entry that starts inside page `f`: the tracker skips it, override (E) reserves the page. */
  predicate StrayAt(e: MmapEntry, f: int)
  {
    !e.IsAvailable() && e.length == 0 && !PageAligned(e.base) && e.base / PAGE_SIZE == f
  }

  predicate Stray(mmap: seq<MmapEntry>, f: int)
  {
    exists e :: e in mmap && StrayAt(e, f)
  }

  /** Exactly the pages of stray entries were added. */
  ghost predicate StraysMarked(before: seq<bool>, after: seq<bool>, mmap: seq<MmapEntry>)
  {
    |after| == |before| && forall f :: 0 <= f < |before| ==> (after[f] <==> before[f] || Stray(mmap, f))
  }

  /** A frame is in use exactly when the tracker does not class it as usable or a stray entry starts inside it. */
  ghost predicate Overridden(used: seq<bool>, regions: seq<Region>, mmap: seq<MmapEntry>)
  {
    |used| * PAGE_SIZE < TWO64 && forall f :: 0 <= f < |used| ==>
      (used[f] <==> !FrameUsable(regions, f) || Stray(mmap, f))
  }

  /** No empty reserved entry starts inside a usable managed page. */
  ghost predicate NoStrayUsable(frames: nat, regions: seq<Region>, mmap: seq<MmapEntry>)
  {
    forall f :: 0 <= f < frames && FrameUsable(regions, f) ==> !Stray(mmap, f)
  }

  /** What the tracker does not class as usable is in use. */
  ghost predicate HoldsReserved(used: seq<bool>, regions: seq<Region>)
  {
    |used| * PAGE_SIZE < TWO64 && forall f :: 0 <= f < |used| && !FrameUsable(regions, f) ==> used[f]
  }

  lemma ComplementCovers(used: seq<bool>, regions: seq<Region>)
    requires Complement(used, regions)
    ensures HoldsReserved(used, regions)
  {
  }

  lemma NoStrays(used: seq<bool>)
    ensures StraysMarked(used, used, [])
  {
  }

  /** What override (E) does for entry `i`. */
  lemma MoreStrays(before: seq<bool>, used: seq<bool>, regions: seq<Region>, mmap: seq<MmapEntry>, i: nat)
    requires i < |mmap| && SaneEntry(mmap[i]) && StraysMarked(before, used, mmap[..i]) && HoldsReserved(used, regions)
    ensures mmap[i].IsAvailable() || mmap[i].length != 0 ==> StraysMarked(before, used, mmap[..i + 1])
    ensures var e := mmap[i];
            var after := Reserved(used, AlignDown(e.base, PAGE_SIZE), AlignUp(Add64(e.base, e.length), PAGE_SIZE));
            !e.IsAvailable() && e.length == 0 ==>
              StraysMarked(before, after, mmap[..i + 1]) && HoldsReserved(after, regions)
  {
    hide FrameUsable, AlignDown, AlignUp;
    var e := mmap[i];
    assert mmap[..i + 1] == mmap[..i] + [e];
    forall f ensures Stray(mmap[..i + 1], f) <==> Stray(mmap[..i], f) || StrayAt(e, f) {
      if StrayAt(e, f) { assert e in mmap[..i + 1]; }
    }
    if !e.IsAvailable() && e.length == 0 {
      forall f
        ensures InSpan(AlignDown(e.base, PAGE_SIZE), AlignUp(e.base, PAGE_SIZE), f) <==> StrayAt(e, f)
      {
        StraySpan(e, f);
      }
    }
  }

  lemma StraySpan(e: MmapEntry, f: int)
    requires !e.IsAvailable() && e.length == 0 && e.base <= TWO64 - PAGE_SIZE
    ensures InSpan(AlignDown(e.base, PAGE_SIZE), AlignUp(e.base, PAGE_SIZE), f) <==> StrayAt(e, f)
  {
    hide AlignDown, AlignUp;
    DownTwice(e.base);
    UpTwice(e.base);
    OwnPage(e.base, f);
  }

  lemma OwnPage(x: u64, f: int)
    requires x <= TWO64 - PAGE_SIZE
    ensures AlignDown(x, PAGE_SIZE) <= AlignUp(x, PAGE_SIZE)
            && (AlignDown(x, PAGE_SIZE) < AlignUp(x, PAGE_SIZE) <==> !PageAligned(x))
    ensures !PageAligned(x) ==>
              (AlignDown(x, PAGE_SIZE) <= f * PAGE_SIZE < AlignUp(x, PAGE_SIZE) <==> x / PAGE_SIZE == f)
  {
    var q := x / PAGE_SIZE;
    assert x == q * PAGE_SIZE + x % PAGE_SIZE;
  }

  lemma StraysOverride(before: seq<bool>, used: seq<bool>, regions: seq<Region>, mmap: seq<MmapEntry>)
    requires Complement(before, regions) && StraysMarked(before, used, mmap)
    ensures Overridden(used, regions, mmap)
  {
    hide FrameUsable;
  }

  /** Bitmap and tracker agree exactly when no stray entry starts inside a usable managed page. */
  lemma AgreesExactly(used: seq<bool>, regions: seq<Region>, mmap: seq<MmapEntry>)
    requires Overridden(used, regions, mmap)
    ensures Complement(used, regions) <==> NoStrayUsable(|used|, regions, mmap)
  {
    hide FrameUsable, Stray;
  }

  lemma SpanTouches(r: Region, start: u64, end: u64, f: nat)
    requires Covers(r, start, end) && f * PAGE_SIZE < TWO64
    requires InSpan(start, end, f)
    ensures Touches(r, f * PAGE_SIZE)
  {
  }

  /** Reserving again what a tracked reservation covers leaves the bitmap alone. */
  lemma OverrideChangesNothing(used: seq<bool>, raw: seq<Region>, regions: seq<Region>, r: Region, start: u64, end: u64)
    requires NormalForm(raw, regions) && HoldsReserved(used, regions)
    requires r in raw && Covers(r, start, end)
    ensures Reserved(used, start, end) == used
  {
    forall f | 0 <= f < |used| && InSpan(start, end, f) ensures used[f] {
      SpanTouches(r, start, end, f);
      ReservationWins(raw, regions, r, f * PAGE_SIZE);
      assert !FrameUsable(regions, f);
    }
  }

  /** Frames that `reserve_range(start, end)` marks. */
  predicate InSpan(start: u64, end: u64, f: int)
  {
    start < end && AlignDown(start, PAGE_SIZE) <= f * PAGE_SIZE < AlignUp(end, PAGE_SIZE)
  }

  function Reserved(used: seq<bool>, start: u64, end: u64): (r: seq<bool>)
    ensures |r| == |used| && forall f :: 0 <= f < |used| ==> r[f] == (used[f] || InSpan(start, end, f))
  {
    seq(|used|, f requires 0 <= f < |used| => used[f] || InSpan(start, end, f))
  }

  lemma ReservedNothing(used: seq<bool>, start: u64, end: u64, limit: u64)
    requires limit == |used| * PAGE_SIZE
    ensures end <= start || AlignDown(start, PAGE_SIZE) >= limit ==> Reserved(used, start, end) == used
  {
  }

  /** `lo` and `hi` are the first and the end frame of the clipped range. */
  lemma ReservedIsMarked(used: seq<bool>, start: u64, end: u64, limit: u64, lo: nat, hi: nat)
    requires limit == |used| * PAGE_SIZE && start < end && lo < |used|
    requires lo * PAGE_SIZE == AlignDown(start, PAGE_SIZE)
    requires hi * PAGE_SIZE == if AlignUp(end, PAGE_SIZE) > limit then limit else AlignUp(end, PAGE_SIZE)
    ensures lo <= hi <= |used| && Reserved(used, start, end) == Marked(used, lo, hi - lo, true)
  {
    assert start <= AlignUp(end, PAGE_SIZE);
    forall g | 0 <= g < |used| ensures InSpan(start, end, g) <==> lo <= g < hi {
    }
  }

  lemma AlignedFrames(start: u64, end: u64, limit: u64)
    requires limit % PAGE_SIZE == 0
    ensures AlignDown(start, PAGE_SIZE) / PAGE_SIZE * PAGE_SIZE == AlignDown(start, PAGE_SIZE)
    ensures var e := if AlignUp(end, PAGE_SIZE) > limit then limit else AlignUp(end, PAGE_SIZE);
            e / PAGE_SIZE * PAGE_SIZE == e
  {
  }

  lemma FrameUsableAppend(rs: seq<Region>, r: Region, f: nat)
    ensures FrameUsable(rs + [r], f) <==>
              FrameUsable(rs, f) || (f * PAGE_SIZE < TWO64 && r.IsAvailable() && r.Contains(f * PAGE_SIZE))
  {
    if f * PAGE_SIZE < TWO64 {
      var a: u64 := f * PAGE_SIZE;
      if UsableIn(rs, a) {
        var x :| x in rs && x.IsAvailable() && x.Contains(a);
        assert x in rs + [r];
      }
      if r.IsAvailable() && r.Contains(a) {
        assert r in rs + [r];
      }
    }
  }

  lemma NextFreed(used: seq<bool>, usable: seq<bool>, s: nat, n: nat, i: nat)
    requires AllAllocated(used, usable, s, n) && i < n
    ensures var cur := Marked(used, s, i, false);
            cur[s + i] && usable[s + i] && Marked(used, s, i + 1, false) == cur[s + i := false]
  {
  }

  // ---------------------------------------------------------------- placing the bitmap

  /** Bytes of a bitmap over the frames below `limit`. */
  function BitmapBytes(limit: u64): int
  {
    ((limit / PAGE_SIZE + 7) / 8 + 7) / 8 * 8
  }

  /** `at` is a page-aligned place for `size` bytes in entry `e`, from `from` on, clear of the Multiboot2 block and
      of every reservation. */
  ghost predicate Holds(regions: seq<Region>, e: MmapEntry, from: u64, size: u64, mb2: u64, mb2Size: u64, at: int)
  {
    && from <= at && PageAligned(at) && e.base <= at && at + size <= e.base + e.length && e.IsAvailable()
    && (at + size <= mb2 || mb2 + mb2Size <= at)
    && forall a: u64 :: at <= a < at + size ==> !ReservedIn(regions, a)
  }

  ghost predicate NoneBelow(regions: seq<Region>, e: MmapEntry, from: u64, size: u64, mb2: u64, mb2Size: u64,
                            limit: int)
  {
    forall at: u64 :: at < limit ==> !Holds(regions, e, from, size, mb2, mb2Size, at)
  }

  ghost predicate NoneIn(regions: seq<Region>, mmap: seq<MmapEntry>, from: u64, size: u64, mb2: u64, mb2Size: u64)
  {
    forall e :: e in mmap ==> NoneBelow(regions, e, from, size, mb2, mb2Size, TWO64)
  }

  /** `at` is the lowest place in the first entry that has one. */
  ghost predicate Placement(regions: seq<Region>, mmap: seq<MmapEntry>, from: u64, size: u64, mb2: u64, mb2Size: u64,
                            at: u64)
  {
    exists i: nat {:trigger mmap[i]} :: i < |mmap| && Holds(regions, mmap[i], from, size, mb2, mb2Size, at)
           && NoneBelow(regions, mmap[i], from, size, mb2, mb2Size, at)
              && NoneIn(regions, mmap[..i], from, size, mb2, mb2Size)
  }

  lemma NoneInMore(regions: seq<Region>, mmap: seq<MmapEntry>, j: nat, from: u64, size: u64, mb2: u64, mb2Size: u64)
    requires j < |mmap| && NoneIn(regions, mmap[..j], from, size, mb2, mb2Size)
    ensures !mmap[j].IsAvailable() || NoneBelow(regions, mmap[j], from, size, mb2, mb2Size, TWO64) ==>
              NoneIn(regions, mmap[..j + 1], from, size, mb2, mb2Size)
  {
    assert mmap[..j + 1] == mmap[..j] + [mmap[j]];
  }

  lemma NoneBelowStart(regions: seq<Region>, e: MmapEntry, from: u64, size: u64, mb2: u64, mb2Size: u64, at: u64)
    requires SaneEntry(e) && e.IsAvailable() && PageAligned(from) && at ==
               if e.base > from then AlignUp(e.base, PAGE_SIZE) else from
    ensures NoneBelow(regions, e, from, size, mb2, mb2Size, at)
  {
    forall p: u64 | p < at ensures !Holds(regions, e, from, size, mb2, mb2Size, p) {
      if e.base > from && p >= e.base { RoundedIsLeast(e.base, p); }
    }
  }

  lemma RoundedIsLeast(x: u64, p: u64)
    requires x <= PHYSICAL_LIMIT && x <= p < AlignUp(x, PAGE_SIZE)
    ensures !PageAligned(p)
  {
  }

  lemma HoldsExactly(regions: seq<Region>, e: MmapEntry, from: u64, size: u64, mb2: u64, mb2Size: u64, at: u64,
                     mb2Collision: bool, reservedCollision: bool)
    requires SaneEntry(e) && e.IsAvailable() && from <= at && PageAligned(at) && e.base <= at
             && at + size <= e.base + e.length && 0 < size
    requires mb2Collision <==> at < mb2 + mb2Size && at + size > mb2
    requires reservedCollision <==>
               size != 0 && (at > UINT64_MAX - size || exists a: u64 :: at <= a < at + size && ReservedIn(regions, a))
    ensures Holds(regions, e, from, size, mb2, mb2Size, at) <==> !mb2Collision && !reservedCollision
  {
  }

  lemma NoneBelowStep(regions: seq<Region>, e: MmapEntry, from: u64, size: u64, mb2: u64, mb2Size: u64, at: u64)
    requires PageAligned(at) && NoneBelow(regions, e, from, size, mb2, mb2Size, at)
             && !Holds(regions, e, from, size, mb2, mb2Size, at)
    ensures NoneBelow(regions, e, from, size, mb2, mb2Size, at + PAGE_SIZE)
  {
    forall p: u64 | p < at + PAGE_SIZE ensures !Holds(regions, e, from, size, mb2, mb2Size, p) {
      if p > at { BetweenPages(at, p); }
    }
  }

  lemma BetweenPages(at: u64, p: u64)
    requires PageAligned(at) && at < p < at + PAGE_SIZE
    ensures !PageAligned(p)
  {
  }

  lemma NoneBelowEnd(regions: seq<Region>, e: MmapEntry, from: u64, size: u64, mb2: u64, mb2Size: u64, at: int)
    requires NoneBelow(regions, e, from, size, mb2, mb2Size, at) && at + size > e.base + e.length
    ensures NoneBelow(regions, e, from, size, mb2, mb2Size, TWO64)
  {
  }

  lemma HoldsSomewhere(regions: seq<Region>, mmap: seq<MmapEntry>, i: nat, from: u64, size: u64, mb2: u64, mb2Size: u64,
                       at: u64)
    requires i < |mmap| && Holds(regions, mmap[i], from, size, mb2, mb2Size, at) && SaneEntry(mmap[i])
    ensures !NoneIn(regions, mmap, from, size, mb2, mb2Size) && at + size <= PHYSICAL_LIMIT
  {
    assert mmap[i] in mmap;
  }

  lemma RoundedStart(x: u64, alignment: int)
    requires alignment == PAGE_SIZE && x <= PHYSICAL_LIMIT
    ensures x <= AlignUp(x, alignment) < TWO64 && PageAligned(AlignUp(x, alignment))
  {
  }

  lemma NextPage(at: u64)
    requires PageAligned(at)
    ensures PageAligned(at + PAGE_SIZE)
  {
  }

  lemma SingleRun(used: seq<bool>, frames: map<nat, Page>, s: nat)
    requires s < |used|
    ensures Marked(used, s, 1, true) == used[s := true] && Zeroed(frames, s, 1) == frames[s := Zero]
    ensures !used[s] ==> FreeRun(used, s, 1)
  {
    assert Marked(used, s, 0, true) == used && Zeroed(frames, s, 0) == frames;
  }

  lemma FrameAddress(pmm: PhysicalMemoryManager, s: nat)
    requires pmm.Steady() && s < |pmm.used|
    ensures s * PAGE_SIZE < TWO64
  {
  }

  predicate AllAllocated(used: seq<bool>, usable: seq<bool>, s: nat, n: nat)
  {
    s + n <= |used| && |used| == |usable| && forall f :: s <= f < s + n ==> used[f] && usable[f]
  }

  /** The address `free_pages` reaches in round `i`. */
  function PageAt(paddr: u64, i: nat): u64
  {
    (paddr + i * PAGE_SIZE) % TWO64
  }

  predicate SweepAllowed(paddr: u64, count: u64)
  {
    count > 0 && PageAligned(paddr) && paddr != 0 && paddr <= UINT64_MAX - (count * PAGE_SIZE) % TWO64
  }

  ghost predicate SweepReaches(paddr: u64, n: nat, f: int)
  {
    exists i :: 0 <= i < n && PageAt(paddr, i) == f * PAGE_SIZE
  }

  /** Every allocated frame among the first `n` pages reached is free afterwards, and no other bit changed. */
  ghost predicate Swept(before: seq<bool>, after: seq<bool>, usable: seq<bool>, paddr: u64, n: nat)
  {
    && |before| == |after| == |usable|
    && forall f :: 0 <= f < |before| ==> (after[f] <==> before[f] && !(usable[f] && SweepReaches(paddr, n, f)))
  }

  /** The run is freed so far, or some frame of it was not allocated. */
  ghost predicate RunFreed(before: seq<bool>, after: seq<bool>, usable: seq<bool>, s: nat, n: nat, ok: bool)
  {
    && |before| == |after| && (n == 0 ==> after == before)
    && (ok <==> n == 0 || AllAllocated(before, usable, s, n))
    && (ok && n > 0 ==> after == Marked(before, s, n, false))
  }

  lemma SweepStart(used: seq<bool>, usable: seq<bool>, paddr: u64)
    requires |used| == |usable|
    ensures Swept(used, used, usable, paddr, 0) && RunFreed(used, used, usable, paddr / PAGE_SIZE, 0, true)
  {
  }

  /** What `free_page` does to the frame at `cur`. */
  ghost predicate PageFreed(mid: seq<bool>, after: seq<bool>, usable: seq<bool>, cur: u64, freed: bool)
  {
    && |mid| == |after| == |usable|
    && (freed <==> cur / PAGE_SIZE < |mid| && mid[cur / PAGE_SIZE] && usable[cur / PAGE_SIZE])
    && after == if freed then mid[cur / PAGE_SIZE := false] else mid
  }

  lemma PageReached(paddr: u64, i: nat)
    requires PageAligned(paddr)
    ensures PageAligned(PageAt(paddr, i)) && PageAt(paddr, i) / PAGE_SIZE * PAGE_SIZE == PageAt(paddr, i)
  {
    assert (paddr + i * PAGE_SIZE) == (paddr / PAGE_SIZE + i) * PAGE_SIZE;
    assert TWO64 == 0x10_0000_0000_0000 * PAGE_SIZE;
  }

  lemma SweepStep(before: seq<bool>, mid: seq<bool>, after: seq<bool>, usable: seq<bool>, paddr: u64, n: nat,
                  freed: bool)
    requires Swept(before, mid, usable, paddr, n) && PageAligned(paddr)
             && PageFreed(mid, after, usable, PageAt(paddr, n), freed)
    ensures Swept(before, after, usable, paddr, n + 1)
  {
    PageReached(paddr, n);
    forall f | 0 <= f < |before| ensures after[f] <==> before[f] && !(usable[f] && SweepReaches(paddr, n + 1, f)) {
      SameFrame(PageAt(paddr, n), f);
      assert SweepReaches(paddr, n + 1, f) <==> SweepReaches(paddr, n, f) || PageAt(paddr, n) == f * PAGE_SIZE;
    }
  }

  lemma SameFrame(p: u64, f: int)
    requires PageAligned(p)
    ensures p == f * PAGE_SIZE <==> p / PAGE_SIZE == f
  {
  }

  lemma RunStep(before: seq<bool>, mid: seq<bool>, after: seq<bool>, usable: seq<bool>, paddr: u64, n: nat, ok: bool,
                freed: bool)
    requires RunFreed(before, mid, usable, paddr / PAGE_SIZE, n, ok) && PageAligned(paddr) && |before| == |usable|
             && |before| * PAGE_SIZE < TWO64
    requires PageFreed(mid, after, usable, PageAt(paddr, n), freed)
    ensures RunFreed(before, after, usable, paddr / PAGE_SIZE, n + 1, ok && freed)
  {
    hide PageAt;
    var s := paddr / PAGE_SIZE;
    if s + n <= |before| || n == 0 {
      RunAt(paddr, n, |before|);
    }
    if AllAllocated(before, usable, s, n + 1) {
      NextFreed(before, usable, s, n + 1, n);
    }
  }

  lemma RunAt(paddr: u64, i: nat, totalFrames: nat)
    requires PageAligned(paddr) && (i == 0 || paddr / PAGE_SIZE + i <= totalFrames) && totalFrames * PAGE_SIZE < TWO64
    ensures PageAt(paddr, i) / PAGE_SIZE == paddr / PAGE_SIZE + i
  {
    assert paddr == paddr / PAGE_SIZE * PAGE_SIZE;
    assert paddr + i * PAGE_SIZE == (paddr / PAGE_SIZE + i) * PAGE_SIZE;
  }

  lemma FreeCount(pmm: PhysicalMemoryManager)
    requires pmm.Valid()
    ensures pmm.freeFrames == Count(pmm.used, false)
  {
  }

  lemma MoreFree(used: seq<bool>, usable: seq<bool>, s: nat, n: nat)
    requires AllAllocated(used, usable, s, n)
    ensures Count(Marked(used, s, n, false), false) == Count(used, false) + n
  {
    var freed := Marked(used, s, n, false);
    assert Marked(freed, s, n, true) == used;
    MarkedCount(freed, s, n);
  }

  lemma TableSized(pmm: PhysicalMemoryManager)
    requires pmm.Valid()
    ensures |pmm.used| == |pmm.usable| == pmm.totalFrames && pmm.totalFrames * PAGE_SIZE < TWO64
    ensures pmm.initialized && pmm.totalFrames > 0 && !pmm.usable[0]
  {
  }

  lemma RejectedRun(paddr: u64, count: u64, totalFrames: nat)
    requires PageAligned(paddr) && paddr > UINT64_MAX - (count * PAGE_SIZE) % TWO64 && totalFrames * PAGE_SIZE < TWO64
    ensures paddr / PAGE_SIZE + count > totalFrames
  {
  }

  /** Whether an allocated block is cleared: a single page by its start, a run by its end. */
  predicate ZeroedBlock(paddr: u64, count: nat)
  {
    if count == 1 then paddr < DIRECT_MAP_LIMIT else paddr + count * PAGE_SIZE < DIRECT_MAP_LIMIT
  }
}
