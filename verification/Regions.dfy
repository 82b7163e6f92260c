/** kernel/memory/reserved_regions: normalisation of firmware memory regions. */
module Regions {
  import opened Machine

  const MAX_REGIONS: nat := 128
  const AVAILABLE: nat := 1
  const RESERVED: nat := 2

  /** `end` is exclusive; `kind` is the raw 32-bit firmware type. */
  datatype Region = Region(start: u64, end: u64, length: u64, kind: nat, name: string) {
    predicate IsAvailable() { kind == AVAILABLE }
    predicate IsReserved() { !IsAvailable() }
    predicate Contains(a: u64) { start <= a < end }
    predicate Overlaps(from: u64, len: u64) {
      len != 0 && length != 0 && start < Add64(from, len) && from < end
    }
  }

  // ---------------------------------------------------------------- meaning

  /** Raw regions that `normalize` does not skip. */
  predicate Considered(r: Region)
  {
    r.length != 0 && r.start <= UINT64_MAX - r.length
  }

  /** Page-rounded extent: outward for reservations, inward for usable RAM. */
  function Lo(r: Region): u64
  {
    if r.IsReserved() then AlignDown(r.start, PAGE_SIZE) else AlignUp(r.start, PAGE_SIZE)
  }

  function Hi(r: Region): u64
  {
    if r.IsReserved() then PageUpWrapping(Add64(r.start, r.length))
    else AlignDown(Add64(r.start, r.length), PAGE_SIZE)
  }

  predicate Spans(r: Region, a: u64)
  {
    Considered(r) && Lo(r) <= a < Hi(r)
  }

  ghost predicate ReservedAt(raw: seq<Region>, a: u64)
  {
    exists r :: r in raw && r.IsReserved() && Spans(r, a)
  }

  ghost predicate AvailableAt(raw: seq<Region>, a: u64)
  {
    exists r :: r in raw && r.IsAvailable() && Spans(r, a)
  }

  ghost predicate Covered(rs: seq<Region>, a: u64)
  {
    exists r :: r in rs && r.Contains(a)
  }

  /** Address `a` lies in a region of `rs` that is usable RAM. */
  ghost predicate UsableIn(rs: seq<Region>, a: u64)
  {
    exists r :: r in rs && r.IsAvailable() && r.Contains(a)
  }

  ghost predicate ReservedIn(rs: seq<Region>, a: u64)
  {
    exists r :: r in rs && r.IsReserved() && r.Contains(a)
  }

  predicate Proper(r: Region)
  {
    r.start < r.end && r.length == r.end - r.start && PageAligned(r.start) && PageAligned(r.end)
  }

  predicate AllProper(rs: seq<Region>)
  {
    forall i :: 0 <= i < |rs| ==> Proper(rs[i])
  }

  predicate SortedByStart(rs: seq<Region>)
  {
    forall i, j :: 0 <= i < j < |rs| ==> rs[i].start <= rs[j].start
  }

  /** Increasing and pairwise disjoint. */
  predicate Ordered(rs: seq<Region>)
  {
    forall i, j :: 0 <= i < j < |rs| ==> rs[i].end <= rs[j].start
  }

  predicate AllKind(rs: seq<Region>, available: bool)
  {
    forall i :: 0 <= i < |rs| ==> rs[i].IsAvailable() == available
  }

  function CountKind(rs: seq<Region>, available: bool): nat
  {
    if rs == [] then 0
    else CountKind(rs[..|rs|-1], available) + if rs[|rs|-1].IsAvailable() == available then 1 else 0
  }

  /** Every usable page of `raw` outside its reservations is usable in `out`. */
  ghost predicate Exact(raw: seq<Region>, out: seq<Region>)
  {
    forall a: u64 :: AvailableAt(raw, a) && !ReservedAt(raw, a) ==> UsableIn(out, a)
  }

  /** What `normalize` promises of its output table. */
  ghost predicate NormalForm(raw: seq<Region>, out: seq<Region>)
  {
    && |out| <= MAX_REGIONS && AllProper(out) && Ordered(out)
    && (forall a: u64 :: ReservedIn(out, a) <==> ReservedAt(raw, a))
    && (forall a: u64 :: UsableIn(out, a) ==> AvailableAt(raw, a) && !ReservedAt(raw, a))
    && (|out| < MAX_REGIONS ==> Exact(raw, out))
    && (2 * CountKind(raw, false) + CountKind(raw, true) <= MAX_REGIONS ==> Exact(raw, out))
  }

  // ---------------------------------------------------------------- step 1: rounding

  /** Page-rounded copy of a raw entry. */
  function Rounded(r: Region): Region
  {
    Region(Lo(r), Hi(r), Sub64(Hi(r), Lo(r)), r.kind, r.name)
  }

  predicate Kept(r: Region, available: bool)
  {
    r.IsAvailable() == available && Considered(r) && Lo(r) < Hi(r)
  }

  /** The rounded image of the raw entries of one kind, in registration order. */
  function Image(raw: seq<Region>, available: bool): seq<Region>
  {
    if raw == [] then []
    else
      var r := raw[|raw|-1];
      Image(raw[..|raw|-1], available) + if Kept(r, available) then [Rounded(r)] else []
  }

  lemma RoundedIsProper(r: Region, available: bool)
    requires Kept(r, available)
    ensures Proper(Rounded(r))
  {
  }

  lemma {:induction false} ImageShape(raw: seq<Region>, available: bool)
    ensures |Image(raw, available)| <= CountKind(raw, available)
    ensures AllProper(Image(raw, available)) && AllKind(Image(raw, available), available)
  {
    if raw != [] {
      var r := raw[|raw|-1];
      ImageShape(raw[..|raw|-1], available);
      if Kept(r, available) { RoundedIsProper(r, available); }
    }
  }

  lemma {:induction false} ImageMembers(raw: seq<Region>, available: bool, x: Region)
    ensures x in Image(raw, available) <==> exists r :: r in raw && Kept(r, available) && x == Rounded(r)
  {
    if raw != [] {
      var init, last := raw[..|raw|-1], raw[|raw|-1];
      ImageMembers(init, available, x);
      assert raw == init + [last];
      if x in Image(init, available) {
        var r :| r in init && Kept(r, available) && x == Rounded(r);
        assert r in raw;
      }
    }
  }

  lemma ImageCovers(raw: seq<Region>, available: bool, a: u64)
    ensures Covered(Image(raw, available), a) <==> exists r :: r in raw && r.IsAvailable() == available && Spans(r, a)
  {
    if Covered(Image(raw, available), a) {
      var x :| x in Image(raw, available) && x.Contains(a);
      ImageMembers(raw, available, x);
    }
    if exists r :: r in raw && r.IsAvailable() == available && Spans(r, a) {
      var r :| r in raw && r.IsAvailable() == available && Spans(r, a);
      ImageMembers(raw, available, Rounded(r));
      assert Rounded(r).Contains(a);
    }
  }

  lemma {:induction false} CountsSplit(raw: seq<Region>)
    ensures CountKind(raw, true) + CountKind(raw, false) == |raw|
  {
    if raw != [] { CountsSplit(raw[..|raw|-1]); }
  }

  // ---------------------------------------------------------------- steps 2, 3 and 6: bubble sort

  /** Everything from index `from` on is in its final place. */
  predicate Settled(rs: seq<Region>, from: int)
  {
    forall p, q :: 0 <= p < q < |rs| && from <= q ==> rs[p].start <= rs[q].start
  }

  lemma SwapKeepsSettled(rs: seq<Region>, j: nat, from: int)
    requires j + 1 < |rs| && j + 1 < from && Settled(rs, from)
    ensures Settled(rs[j := rs[j+1]][j+1 := rs[j]], from)
    ensures multiset(rs[j := rs[j+1]][j+1 := rs[j]]) == multiset(rs)
  {
  }

  method SwapNext(a: array<Region>, j: nat, ghost from: nat)
    requires j + 1 < a.Length && j + 1 < from && Settled(a[..], from)
    modifies a
    ensures a[..] == old(a[..])[j := old(a[j + 1])][j + 1 := old(a[j])]
    ensures Settled(a[..], from) && multiset(a[..]) == multiset(old(a[..]))
  {
    SwapKeepsSettled(a[..], j, from);
    a[j], a[j + 1] := a[j + 1], a[j];
    assert a[..] == old(a[..])[j := old(a[j + 1])][j + 1 := old(a[j])];
  }

  method BubblePass(a: array<Region>, last: nat)
    requires last < a.Length && Settled(a[..], last + 1)
    modifies a
    ensures Settled(a[..], last)
    ensures multiset(a[..]) == multiset(old(a[..]))
  {
    var j := 0;
    while j < last
      invariant j <= last
      invariant forall p :: 0 <= p < j ==> a[p].start <= a[j].start
      invariant Settled(a[..], last + 1)
      invariant multiset(a[..]) == multiset(old(a[..]))
    {
      if a[j].start > a[j + 1].start {
        SwapNext(a, j, last + 1);
      }
      j := j + 1;
    }
  }

  /** Sorts the used part of a region table by start address, in place. */
  method SortByStart(a: array<Region>)
    modifies a
    ensures SortedByStart(a[..])
    ensures multiset(a[..]) == multiset(old(a[..]))
  {
    var i := 0;
    while i + 1 < a.Length
      invariant a.Length == 0 || i < a.Length
      invariant Settled(a[..], a.Length - i)
      invariant multiset(a[..]) == multiset(old(a[..]))
    {
      BubblePass(a, a.Length - i - 1);
      i := i + 1;
    }
  }

  method Sorted(rs: seq<Region>) returns (out: seq<Region>)
    ensures SortedByStart(out) && multiset(out) == multiset(rs) && |out| == |rs|
  {
    var a := new Region[|rs|](i requires 0 <= i < |rs| => rs[i]);
    assert a[..] == rs;
    SortByStart(a);
    out := a[..];
    assert |multiset(out)| == |multiset(rs)|;
  }

  lemma SameMembers(xs: seq<Region>, ys: seq<Region>)
    requires multiset(xs) == multiset(ys)
    ensures forall r :: r in xs <==> r in ys
    ensures AllProper(xs) ==> AllProper(ys)
    ensures forall k :: AllKind(xs, k) ==> AllKind(ys, k)
  {
    forall r ensures r in xs <==> r in ys {
      assert r in xs <==> r in multiset(xs);
      assert r in ys <==> r in multiset(ys);
    }
    assert forall i :: 0 <= i < |ys| ==> ys[i] in xs;
  }

  // ---------------------------------------------------------------- merging

  /** One round of the merge loop: `acc` is the merged table so far. */
  function MergeInto(acc: seq<Region>, cur: Region, available: bool): seq<Region>
  {
    if acc == [] then [cur]
    else
      var prev := acc[|acc|-1];
      var grown := prev.(end := cur.end, length := Sub64(cur.end, prev.start));
      if prev.end > cur.start || (available && prev.end == cur.start) then
        if cur.end > prev.end then acc[|acc|-1 := grown] else acc
      else if !available && prev.end == cur.start && prev.kind == cur.kind && prev.name == cur.name then
        acc[|acc|-1 := grown]
      else acc + [cur]
  }

  function Merge(rs: seq<Region>, available: bool): seq<Region>
  {
    if rs == [] then [] else MergeInto(Merge(rs[..|rs|-1], available), rs[|rs|-1], available)
  }

  lemma MergeIntoShape(acc: seq<Region>, cur: Region, available: bool)
    requires AllProper(acc) && AllKind(acc, available) && Ordered(acc)
    requires Proper(cur) && cur.IsAvailable() == available
    requires acc != [] ==> acc[|acc|-1].start <= cur.start
    ensures var out := MergeInto(acc, cur, available);
            && AllProper(out) && AllKind(out, available) && Ordered(out)
            && out != [] && out[|out|-1].start <= cur.start && |out| <= |acc| + 1
  {
  }

  lemma CoveredAppend(xs: seq<Region>, x: Region, a: u64)
    ensures Covered(xs + [x], a) <==> Covered(xs, a) || x.Contains(a)
  {
    if Covered(xs, a) {
      var r :| r in xs && r.Contains(a);
      assert r in xs + [x];
    }
    if x.Contains(a) {
      assert x in xs + [x];
    }
  }

  lemma MergeIntoCovers(acc: seq<Region>, cur: Region, available: bool, a: u64)
    requires Proper(cur)
    requires acc != [] ==> Proper(acc[|acc|-1]) && acc[|acc|-1].start <= cur.start
    ensures Covered(MergeInto(acc, cur, available), a) <==> Covered(acc, a) || cur.Contains(a)
  {
    var out := MergeInto(acc, cur, available);
    if acc == [] {
      assert acc + [cur] == out;
      CoveredAppend(acc, cur, a);
    } else {
      var n := |acc| - 1;
      var init, prev := acc[..n], acc[n];
      assert acc == init + [prev];
      CoveredAppend(init, prev, a);
      if out == acc + [cur] {
        CoveredAppend(acc, cur, a);
      } else if out != acc {
        assert out == init + [out[n]];
        CoveredAppend(init, out[n], a);
      }
    }
  }

  predicate MergeInput(rs: seq<Region>, available: bool)
  {
    AllProper(rs) && AllKind(rs, available) && SortedByStart(rs)
  }

  predicate MergeOutput(out: seq<Region>, available: bool)
  {
    AllProper(out) && AllKind(out, available) && Ordered(out)
  }

  lemma {:induction false} MergeShape(rs: seq<Region>, available: bool)
    requires MergeInput(rs, available)
    ensures MergeOutput(Merge(rs, available), available) && |Merge(rs, available)| <= |rs|
    ensures rs != [] ==> var out := Merge(rs, available); out != [] && out[|out|-1].start <= rs[|rs|-1].start
    decreases rs, 1
  {
    if rs != [] {
      MergeStep(rs, available);
      MergeIntoShape(Merge(rs[..|rs|-1], available), rs[|rs|-1], available);
    }
  }

  /** The merge of all but the last entry is ready to take the last one. */
  lemma {:induction false} MergeStep(rs: seq<Region>, available: bool)
    requires MergeInput(rs, available) && rs != []
    ensures var acc := Merge(rs[..|rs|-1], available);
            && MergeOutput(acc, available) && |acc| < |rs|
            && (acc != [] ==> acc[|acc|-1].start <= rs[|rs|-1].start)
    decreases rs, 0
  {
    var init := rs[..|rs|-1];
    MergeShape(init, available);
    if init != [] { assert init[|init|-1] == rs[|rs|-2]; }
  }

  lemma {:induction false} MergeCovers(rs: seq<Region>, available: bool, a: u64)
    requires MergeInput(rs, available)
    ensures Covered(Merge(rs, available), a) <==> Covered(rs, a)
  {
    if rs != [] {
      var init, last := rs[..|rs|-1], rs[|rs|-1];
      assert Covered(Merge(rs, available), a) <==> Covered(Merge(init, available), a) || last.Contains(a) by {
        MergeStep(rs, available);
        MergeIntoCovers(Merge(init, available), last, available, a);
      }
      MergeCovers(init, available, a);
      assert rs == init + [last];
      CoveredAppend(init, last, a);
    }
  }

  /** The body of the merge loop; the 128-slot guard never drops an entry. */
  method MergeOne(acc: seq<Region>, cur: Region, available: bool) returns (out: seq<Region>)
    requires |acc| < MAX_REGIONS
    ensures out == MergeInto(acc, cur, available)
  {
    if acc == [] { return [cur]; }
    var prev := acc[|acc|-1];
    var grown := prev.(end := cur.end, length := Sub64(cur.end, prev.start));
    if prev.end > cur.start || (available && prev.end == cur.start) {
      return if cur.end > prev.end then acc[|acc|-1 := grown] else acc;
    }
    if !available && prev.end == cur.start && prev.kind == cur.kind && prev.name == cur.name {
      return acc[|acc|-1 := grown];
    }
    return if |acc| < MAX_REGIONS then acc + [cur] else acc;
  }

  /** The merge loop over a sorted table. */
  method MergeSorted(rs: seq<Region>, available: bool) returns (out: seq<Region>)
    requires |rs| <= MAX_REGIONS && MergeInput(rs, available)
    ensures out == Merge(rs, available)
  {
    out := [];
    for i := 0 to |rs|
      invariant out == Merge(rs[..i], available)
    {
      assert rs[..i+1][..i] == rs[..i];
      MergeShape(rs[..i], available);
      out := MergeOne(out, rs[i], available);
    }
    assert rs[..|rs|] == rs;
  }

  // ---------------------------------------------------------------- step 4: subtraction

  /** What is left of `av` outside `res`. */
  function Cut(av: Region, res: Region): seq<Region>
  {
    if res.end <= av.start || res.start >= av.end then [av]
    else
      (if av.start < res.start then [av.(end := res.start, length := Sub64(res.start, av.start))] else [])
      + (if res.end < av.end then [av.(start := res.end, length := Sub64(av.end, res.end))] else [])
  }

  function Remove(avs: seq<Region>, res: Region): seq<Region>
  {
    if avs == [] then [] else Remove(avs[..|avs|-1], res) + Cut(avs[|avs|-1], res)
  }

  function RemoveAll(avs: seq<Region>, ress: seq<Region>): seq<Region>
  {
    if ress == [] then avs else Remove(RemoveAll(avs, ress[..|ress|-1]), ress[|ress|-1])
  }

  lemma CoveredConcat(xs: seq<Region>, ys: seq<Region>, a: u64)
    ensures Covered(xs + ys, a) <==> Covered(xs, a) || Covered(ys, a)
  {
    if Covered(xs, a) {
      var r :| r in xs && r.Contains(a);
      assert r in xs + ys;
    }
    if Covered(ys, a) {
      var r :| r in ys && r.Contains(a);
      assert r in xs + ys;
    }
  }

  lemma CutCovers(av: Region, res: Region, a: u64)
    requires Proper(av) && Proper(res)
    ensures Covered(Cut(av, res), a) <==> av.Contains(a) && !res.Contains(a)
  {
    var c := Cut(av, res);
    if res.end <= av.start || res.start >= av.end {
      assert av in c;
    } else if av.start < res.start && av.Contains(a) && !res.Contains(a) && a < res.start {
      assert c[0].Contains(a);
    } else if res.end < av.end && av.Contains(a) && res.end <= a {
      assert c[|c|-1].Contains(a);
    }
  }

  lemma CutShape(av: Region, res: Region)
    requires Proper(av) && Proper(res)
    ensures AllProper(Cut(av, res)) && AllKind(Cut(av, res), av.IsAvailable()) && Ordered(Cut(av, res))
    ensures forall i :: 0 <= i < |Cut(av, res)| ==> av.start <= Cut(av, res)[i].start && Cut(av, res)[i].end <= av.end
    ensures |Cut(av, res)| <= 2
    ensures |Cut(av, res)| == 2 ==> res.end < av.end
    ensures res.end <= av.start ==> |Cut(av, res)| == 1
  {
  }

  predicate EndsBy(rs: seq<Region>, bound: int)
  {
    forall i :: 0 <= i < |rs| ==> rs[i].end <= bound
  }

  predicate StartsFrom(rs: seq<Region>, bound: int)
  {
    forall i :: 0 <= i < |rs| ==> bound <= rs[i].start
  }

  lemma JoinShape(xs: seq<Region>, ys: seq<Region>, k: bool, m: int)
    requires MergeOutput(xs, k) && MergeOutput(ys, k) && EndsBy(xs, m) && StartsFrom(ys, m)
    ensures MergeOutput(xs + ys, k)
  {
  }

  /** Removing one reservation from disjoint regions splits at most one of them. */
  lemma {:induction false} RemoveShape(avs: seq<Region>, res: Region)
    requires MergeOutput(avs, true) && Proper(res)
    ensures MergeOutput(Remove(avs, res), true)
    ensures avs != [] ==> EndsBy(Remove(avs, res), avs[|avs|-1].end)
    ensures |Remove(avs, res)| <= |avs| + 1
    ensures |Remove(avs, res)| == |avs| + 1 ==> avs != [] && res.end < avs[|avs|-1].end
  {
    if avs != [] {
      var n := |avs| - 1;
      var init, last := avs[..n], avs[n];
      RemoveShape(init, res);
      CutShape(last, res);
      if init != [] { assert init[n-1] == avs[n-1] && avs[n-1].end <= last.start; }
      assert EndsBy(Remove(init, res), last.start);
      JoinShape(Remove(init, res), Cut(last, res), true, last.start);
    }
  }

  lemma {:induction false} RemoveCovers(avs: seq<Region>, res: Region, a: u64)
    requires AllProper(avs) && Proper(res)
    ensures Covered(Remove(avs, res), a) <==> Covered(avs, a) && !res.Contains(a)
  {
    if avs != [] {
      var init, last := avs[..|avs|-1], avs[|avs|-1];
      RemoveCovers(init, res, a);
      CutCovers(last, res, a);
      CoveredConcat(Remove(init, res), Cut(last, res), a);
      assert avs == init + [last];
      CoveredAppend(init, last, a);
    }
  }

  lemma {:induction false} RemoveAllShape(avs: seq<Region>, ress: seq<Region>)
    requires MergeOutput(avs, true) && AllProper(ress)
    ensures MergeOutput(RemoveAll(avs, ress), true)
    ensures |RemoveAll(avs, ress)| <= |avs| + |ress|
  {
    if ress != [] {
      RemoveAllShape(avs, ress[..|ress|-1]);
      RemoveShape(RemoveAll(avs, ress[..|ress|-1]), ress[|ress|-1]);
    }
  }

  lemma {:induction false} RemoveAllCovers(avs: seq<Region>, ress: seq<Region>, a: u64)
    requires MergeOutput(avs, true) && AllProper(ress)
    ensures Covered(RemoveAll(avs, ress), a) <==> Covered(avs, a) && !Covered(ress, a)
  {
    hide Remove;
    if ress != [] {
      hide Covered;
      var init, last := ress[..|ress|-1], ress[|ress|-1];
      RemoveAllShape(avs, init);
      RemoveAllCovers(avs, init, a);
      RemoveCovers(RemoveAll(avs, init), last, a);
      assert ress == init + [last];
      CoveredAppend(init, last, a);
    }
  }

  /** The loop body of the clip/split loop: append what is left of `av` while slots remain. */
  method ClipInto(next: seq<Region>, av: Region, res: Region) returns (out: seq<Region>)
    requires |next| + |Cut(av, res)| <= MAX_REGIONS
    ensures out == next + Cut(av, res)
  {
    out := next;
    if res.end <= av.start || res.start >= av.end {
      if |out| < MAX_REGIONS {
        out := out + [av];
      }
      return;
    }
    if av.start < res.start && |out| < MAX_REGIONS {
      out := out + [av.(end := res.start, length := Sub64(res.start, av.start))];
    }
    if res.end < av.end && |out| < MAX_REGIONS {
      out := out + [av.(start := res.end, length := Sub64(av.end, res.end))];
    }
  }

  /** The clip/split loop for one reservation; the 128-slot guard never drops a piece. */
  method SubtractOne(avs: seq<Region>, res: Region) returns (next: seq<Region>)
    requires MergeOutput(avs, true) && Proper(res) && |avs| < MAX_REGIONS
    ensures next == Remove(avs, res)
  {
    next := [];
    for i := 0 to |avs|
      invariant next == Remove(avs[..i], res)
    {
      assert avs[..i+1][..i] == avs[..i];
      assert |next| + |Cut(avs[i], res)| <= MAX_REGIONS by {
        RemoveShape(avs[..i+1], res);
      }
      next := ClipInto(next, avs[i], res);
    }
    assert avs[..|avs|] == avs;
  }

  method SubtractAll(avs: seq<Region>, ress: seq<Region>) returns (cur: seq<Region>)
    requires MergeOutput(avs, true) && AllProper(ress) && |avs| + |ress| <= MAX_REGIONS
    ensures cur == RemoveAll(avs, ress)
  {
    cur := avs;
    for r := 0 to |ress|
      invariant cur == RemoveAll(avs, ress[..r])
    {
      assert ress[..r+1][..r] == ress[..r];
      RemoveAllShape(avs, ress[..r]);
      cur := SubtractOne(cur, ress[r]);
    }
    assert ress[..|ress|] == ress;
  }

  // ---------------------------------------------------------------- steps 5 and 6: combination

  predicate PairwiseDisjoint(rs: seq<Region>)
  {
    forall i, j :: 0 <= i < |rs| && 0 <= j < |rs| && i != j ==> rs[i].end <= rs[j].start || rs[j].end <= rs[i].start
  }

  lemma SortedDisjointIsOrdered(xs: seq<Region>, ys: seq<Region>)
    requires AllProper(xs) && PairwiseDisjoint(xs)
    requires multiset(ys) == multiset(xs) && SortedByStart(ys)
    ensures AllProper(ys) && Ordered(ys)
  {
    SameMembers(xs, ys);
    forall p, q | 0 <= p < q < |ys| ensures ys[p].end <= ys[q].start {
      assert ys[p] in xs && ys[q] in xs;
      var i :| 0 <= i < |xs| && xs[i] == ys[p];
      if ys[p] == ys[q] {
        TwiceIn(ys, p, q);
        OnceIn(xs, ys[p]);
      } else {
        var j :| 0 <= j < |xs| && xs[j] == ys[q];
        assert i != j;
      }
    }
  }

  lemma TwiceIn(ys: seq<Region>, p: nat, q: nat)
    requires p < q < |ys| && ys[p] == ys[q]
    ensures multiset(ys)[ys[p]] >= 2
  {
    assert ys == ys[..q] + [ys[q]] + ys[q+1..];
    assert ys[..q][p] == ys[p];
  }

  lemma {:induction false} OnceIn(xs: seq<Region>, x: Region)
    requires AllProper(xs) && PairwiseDisjoint(xs)
    ensures multiset(xs)[x] <= 1
  {
    if xs != [] {
      var init := xs[..|xs|-1];
      OnceIn(init, x);
      assert xs == init + [xs[|xs|-1]];
      assert xs[|xs|-1] !in init;
    }
  }

  /** Disjoint coverage makes a concatenation pairwise disjoint. */
  lemma DisjointParts(res: seq<Region>, avs: seq<Region>)
    requires MergeOutput(res, false) && MergeOutput(avs, true)
    requires forall a: u64 :: Covered(avs, a) ==> !Covered(res, a)
    ensures PairwiseDisjoint(res + avs)
  {
    forall i, j | 0 <= i < |res| && 0 <= j < |avs|
      ensures res[i].end <= avs[j].start || avs[j].end <= res[i].start
    {
      forall a: u64 ensures !(res[i].Contains(a) && avs[j].Contains(a)) {
        assert avs[j] in avs && res[i] in res;
        assert avs[j].Contains(a) ==> Covered(avs, a);
        assert res[i].Contains(a) ==> Covered(res, a);
      }
      NoSharedAddress(res[i], avs[j]);
    }
  }

  lemma NoSharedAddress(x: Region, y: Region)
    requires Proper(x) && Proper(y) && forall a: u64 :: !(x.Contains(a) && y.Contains(a))
    ensures x.end <= y.start || y.end <= x.start
  {
    assert !(x.Contains(y.start) && y.Contains(y.start));
    assert !(x.Contains(x.start) && y.Contains(x.start));
  }

  lemma SplitByKind(res: seq<Region>, avs: seq<Region>, out: seq<Region>, a: u64)
    requires AllKind(res, false) && AllKind(avs, true) && multiset(out) == multiset(res + avs)
    ensures ReservedIn(out, a) <==> Covered(res, a)
    ensures UsableIn(out, a) <==> Covered(avs, a)
  {
    SameMembers(res + avs, out);
    if Covered(res, a) {
      var r :| r in res && r.Contains(a);
      assert r in res + avs;
    }
    if Covered(avs, a) {
      var r :| r in avs && r.Contains(a);
      assert r in res + avs;
    }
    if ReservedIn(out, a) {
      var r :| r in out && r.IsReserved() && r.Contains(a);
      assert r in res + avs;
    }
    if UsableIn(out, a) {
      var r :| r in out && r.IsAvailable() && r.Contains(a);
      assert r in res + avs;
    }
  }

  lemma PrefixOfOrdered(avs: seq<Region>, k: nat, a: u64)
    requires k <= |avs|
    ensures MergeOutput(avs, true) ==> MergeOutput(avs[..k], true)
    ensures Covered(avs[..k], a) ==> Covered(avs, a)
  {
    if Covered(avs[..k], a) {
      var r :| r in avs[..k] && r.Contains(a);
      assert r in avs;
    }
  }

  /** The final table in terms of the merged reservations and the pieces that fit. */
  lemma CombineIsNormalForm(raw: seq<Region>, res: seq<Region>, pieces: seq<Region>, out: seq<Region>)
    requires |raw| <= MAX_REGIONS && MergeOutput(res, false) && MergeOutput(pieces, true)
    requires forall a: u64 :: Covered(res, a) <==> ReservedAt(raw, a)
    requires forall a: u64 :: Covered(pieces, a) <==> AvailableAt(raw, a) && !ReservedAt(raw, a)
    requires |res| <= CountKind(raw, false) && |pieces| <= |raw|
    requires var k := if |pieces| <= MAX_REGIONS - |res| then |pieces| else MAX_REGIONS - |res|;
             k >= 0 && multiset(out) == multiset(res + pieces[..k]) && SortedByStart(out) && |out| == |res| + k
    ensures NormalForm(raw, out)
  {
    var k := if |pieces| <= MAX_REGIONS - |res| then |pieces| else MAX_REGIONS - |res|;
    var kept := pieces[..k];
    forall a: u64
      ensures MergeOutput(kept, true) && (Covered(kept, a) ==> Covered(pieces, a))
      ensures ReservedIn(out, a) <==> Covered(res, a)
      ensures UsableIn(out, a) <==> Covered(kept, a)
    {
      PrefixOfOrdered(pieces, k, a);
      SplitByKind(res, kept, out, a);
    }
    PrefixOfOrdered(pieces, k, 0);
    DisjointParts(res, kept);
    SortedDisjointIsOrdered(res + kept, out);
    CountsSplit(raw);
    if k == |pieces| { assert kept == pieces; }
  }

  // ---------------------------------------------------------------- the tracker

  class ReservedMemoryTracker {
    var raw: seq<Region>
    var regions: seq<Region>

    ghost predicate Valid()
      reads this
    {
      |raw| <= MAX_REGIONS && NormalForm(raw, regions)
    }

    /** Recomputes `regions` from `raw`. */
    method Normalize()
      requires |raw| <= MAX_REGIONS
      modifies this`regions
      ensures Valid()
    {
      if |raw| == 0 {
        regions := [];
        return;
      }
      var res := CollectKind(raw, false);
      var avs := CollectKind(raw, true);
      ImageShape(raw, false);
      ImageShape(raw, true);
      CountsSplit(raw);
      var sortedRes := Sorted(res);
      var sortedAvs := Sorted(avs);
      SameMembers(res, sortedRes);
      SameMembers(avs, sortedAvs);
      var mergedRes := MergeSorted(sortedRes, false);
      var mergedAvs := MergeSorted(sortedAvs, true);
      MergeShape(sortedRes, false);
      MergeShape(sortedAvs, true);
      var pieces := SubtractAll(mergedAvs, mergedRes);
      RemoveAllShape(mergedAvs, mergedRes);
      PiecesMeaning(raw, sortedRes, sortedAvs);
      var k := if |pieces| <= MAX_REGIONS - |mergedRes| then |pieces| else MAX_REGIONS - |mergedRes|;
      regions := Sorted(mergedRes + pieces[..k]);
      CombineIsNormalForm(raw, mergedRes, pieces, regions);
    }

    method AddRegion(start: u64, length: u64, kind: nat, name: string) returns (ok: bool)
      requires Valid()
      modifies this
      ensures Valid()
      ensures ok <==> length != 0 && |old(raw)| < MAX_REGIONS
      ensures raw == if ok then old(raw) + [Region(start, Add64(start, length), length, kind, name)] else old(raw)
    {
      if length == 0 || |raw| >= MAX_REGIONS { return false; }
      raw := raw + [Region(start, Add64(start, length), length, kind, name)];
      Normalize();
      return true;
    }

    method Populate(mmap: seq<MmapEntry>, kernelStart: u64, kernelEnd: u64, mb2: u64, mb2Size: u64)
      modifies this
      ensures Valid()
      ensures raw == Populated(mmap, kernelStart, kernelEnd, mb2, mb2Size)
    {
      raw := Explicit(kernelStart, kernelEnd, mb2, mb2Size);
      for i := 0 to |mmap|
        invariant raw == Imported(Explicit(kernelStart, kernelEnd, mb2, mb2Size), mmap[..i]) && |raw| <= MAX_REGIONS
      {
        assert mmap[..i+1][..i] == mmap[..i];
        if |raw| < MAX_REGIONS && mmap[i].length != 0 {
          raw := raw + [FromEntry(mmap[i])];
        }
      }
      assert mmap[..|mmap|] == mmap;
      Normalize();
    }

    method RegisterPmmBitmap(start: u64, size: u64) returns (ok: bool)
      requires Valid()
      modifies this
      ensures Valid()
      ensures ok <==> size != 0 && |old(raw)| < MAX_REGIONS
      ensures raw == if ok then old(raw) + [PageSpan(start, size, "PMM Allocation Bitmap")] else old(raw)
      ensures !ok ==> regions == old(regions)
    {
      if size == 0 || |raw| >= MAX_REGIONS { return false; }
      raw := raw + [PageSpan(start, size, "PMM Allocation Bitmap")];
      Normalize();
      return true;
    }

    /** Fail-closed: everything outside a usable region counts as reserved. */
    method IsReserved(a: u64) returns (reserved: bool)
      requires Ordered(regions)
      ensures reserved <==> !UsableIn(regions, a)
    {
      for i := 0 to |regions|
        invariant forall j :: 0 <= j < i ==> !regions[j].Contains(a)
      {
        if regions[i].Contains(a) {
          assert forall j :: 0 <= j < |regions| && j != i ==> !regions[j].Contains(a);
          return regions[i].IsReserved();
        }
      }
      return true;
    }

    method OverlapsReserved(start: u64, length: u64) returns (hit: bool)
      requires Valid()
      ensures hit <==> length != 0 && (start > UINT64_MAX - length
                                       || exists a: u64 :: start <= a < start + length && ReservedIn(regions, a))
    {
      if length == 0 { return false; }
      if start > UINT64_MAX - length { return true; }
      for i := 0 to |regions|
        invariant forall j, a: u64 :: 0 <= j < i && regions[j].IsReserved() && start <= a < start + length ==>
                    !regions[j].Contains(a)
      {
        var r := regions[i];
        if r.IsReserved() && r.Overlaps(start, length) {
          ghost var a: u64 := if r.start < start then start else r.start;
          assert r in regions && r.Contains(a);
          assert start <= a < start + length && ReservedIn(regions, a);
          return true;
        }
      }
      return false;
    }

    method IsRangeAvailable(start: u64, length: u64) returns (ok: bool)
      requires Valid()
      ensures ok ==> forall a: u64 :: start <= a < start + length ==> UsableIn(regions, a)
      ensures ok <==> length != 0 && start <= UINT64_MAX - length
                      && exists r :: r in regions && r.IsAvailable() && r.start <= start && start + length <= r.end
    {
      if length == 0 { return false; }
      if start > UINT64_MAX - length { return false; }
      for i := 0 to |regions|
        invariant forall j :: 0 <= j < i && regions[j].IsAvailable() && regions[j].start <= start ==>
                    regions[j].end < start + length
      {
        if regions[i].IsAvailable() && regions[i].start <= start && regions[i].end >= start + length {
          assert regions[i] in regions;
          return true;
        }
      }
      return false;
    }
  }

  // ---------------------------------------------------------------- raw tables

  datatype MmapEntry = MmapEntry(base: u64, length: u64, kind: nat) {
    predicate IsAvailable() { kind == AVAILABLE }
  }

  function Description(kind: nat): string
  {
    if kind == AVAILABLE then "Available Usable RAM"
    else if kind == 3 then "ACPI Reclaimable Memory"
    else if kind == 4 then "ACPI Non-Volatile Storage (NVS)"
    else if kind == 5 then "Defective BadRAM"
    else "Firmware Reserved"
  }

  function FromEntry(e: MmapEntry): Region
  {
    Region(e.base, Add64(e.base, e.length), e.length, e.kind, Description(e.kind))
  }

  /** A reservation rounded outwards to whole pages before it is registered. */
  function PageSpan(start: u64, size: u64, name: string): Region
  {
    var lo, hi := AlignDown(start, PAGE_SIZE), PageUpWrapping(Add64(start, size));
    Region(lo, hi, Sub64(hi, lo), RESERVED, name)
  }

  const LOW_MEMORY: Region := Region(0, 0x100000, 0x100000, RESERVED, "Low Memory (IVT/BDA/EBDA/VRAM)")

  function Explicit(kernelStart: u64, kernelEnd: u64, mb2: u64, mb2Size: u64): seq<Region>
  {
    [LOW_MEMORY]
    + (if kernelEnd > kernelStart
      then [Region(kernelStart, kernelEnd, kernelEnd - kernelStart, RESERVED, "Kernel Physical Image")] else [])
    + (if mb2 != 0 && mb2Size > 0 then [PageSpan(mb2, mb2Size, "Multiboot2 Information Block")] else [])
  }

  function Imported(acc: seq<Region>, mmap: seq<MmapEntry>): seq<Region>
  {
    if mmap == [] then acc
    else
      var init, e := Imported(acc, mmap[..|mmap|-1]), mmap[|mmap|-1];
      if |init| < MAX_REGIONS && e.length != 0 then init + [FromEntry(e)] else init
  }

  function Populated(mmap: seq<MmapEntry>, kernelStart: u64, kernelEnd: u64, mb2: u64, mb2Size: u64): seq<Region>
  {
    Imported(Explicit(kernelStart, kernelEnd, mb2, mb2Size), mmap)
  }

  lemma {:induction false} ImportedMembers(acc: seq<Region>, mmap: seq<MmapEntry>)
    requires |acc| + |mmap| <= MAX_REGIONS
    ensures |Imported(acc, mmap)| <= |acc| + |mmap|
    ensures forall r :: r in acc ==> r in Imported(acc, mmap)
    ensures forall e :: e in mmap && e.length != 0 ==> FromEntry(e) in Imported(acc, mmap)
    ensures forall r :: r in Imported(acc, mmap) ==>
              r in acc || exists e :: e in mmap && e.length != 0 && FromEntry(e) == r
  {
    if mmap != [] {
      var init, e := mmap[..|mmap|-1], mmap[|mmap|-1];
      ImportedMembers(acc, init);
      assert mmap == init + [e];
    }
  }

  // ---------------------------------------------------------------- what callers rely on

  /** The page holding `a` shares a byte with the raw region `r`. */
  predicate Touches(r: Region, a: u64)
  {
    a - a % 0x1000 < r.start + r.length && r.start < a - a % 0x1000 + 0x1000 && r.length > 0
  }

  /** Every byte of the page holding `a` is in the raw region `r`, whose end does not wrap. */
  predicate HoldsPage(r: Region, a: u64)
  {
    r.start <= a - a % 0x1000 && a - a % 0x1000 + 0x1000 <= r.start + r.length < TWO64
  }

  lemma HeldIsSpanned(r: Region, a: u64)
    requires r.IsAvailable()
    ensures HoldsPage(r, a) <==> Spans(r, a)
  {
    var end := r.start + r.length;
    if Considered(r) {
      assert end % 0x1000 <= end;
    }
  }

  lemma SpannedIsTouched(r: Region, a: u64)
    requires r.IsReserved() && Spans(r, a)
    ensures Touches(r, a)
  {
  }

  /** In terms of the bytes registered: a page is usable only if one usable entry holds all of it. */
  lemma UsableIsRam(raw: seq<Region>, out: seq<Region>, a: u64)
    requires NormalForm(raw, out) && UsableIn(out, a)
    ensures exists r :: r in raw && r.kind == 1 && HoldsPage(r, a)
  {
    var r :| r in raw && r.IsAvailable() && Spans(r, a);
    HeldIsSpanned(r, a);
  }

  /** While nothing was cut off and no reservation ends in the last page below 2^64, a page is usable exactly if one
      usable entry holds all of it and no reservation has a byte of it. */
  lemma UsableExactly(raw: seq<Region>, out: seq<Region>, a: u64)
    requires NormalForm(raw, out) && Exact(raw, out)
    requires forall q :: q in raw && q.kind != 1 ==> q.start + q.length <= TWO64 - PAGE_SIZE
    ensures UsableIn(out, a) <==>
              && (exists r :: r in raw && r.kind == 1 && HoldsPage(r, a))
              && (forall q :: q in raw && q.kind != 1 ==> !Touches(q, a))
  {
    hide Touches, HoldsPage, Spans, Exact;
    if UsableIn(out, a) {
      UsableIsRam(raw, out, a);
      forall q | q in raw && q.kind != 1 ensures !Touches(q, a) {
        if Touches(q, a) { ReservationWins(raw, out, q, a); }
      }
    } else {
      NotUsable(raw, out, a);
    }
  }

  lemma NotUsable(raw: seq<Region>, out: seq<Region>, a: u64)
    requires Exact(raw, out) && !UsableIn(out, a)
    ensures (forall r :: r in raw && r.kind == 1 ==> !HoldsPage(r, a))
            || exists q :: q in raw && q.kind != 1 && Touches(q, a)
  {
    hide Touches, HoldsPage, Spans, UsableIn;
    assert !AvailableAt(raw, a) || ReservedAt(raw, a);
    if ReservedAt(raw, a) {
      var q :| q in raw && q.IsReserved() && Spans(q, a);
      SpannedIsTouched(q, a);
    } else {
      forall r | r in raw && r.kind == 1 ensures !HoldsPage(r, a) { HeldIsSpanned(r, a); }
    }
  }

  /** Whole-page reservation, whatever else is registered and even when the table overflows. */
  lemma ReservationWins(raw: seq<Region>, out: seq<Region>, r: Region, a: u64)
    requires NormalForm(raw, out) && r in raw && r.IsReserved()
    requires r.start + r.length <= TWO64 - PAGE_SIZE
    requires Touches(r, a)
    ensures !UsableIn(out, a)
  {
    TouchedIsSpanned(r, a);
    assert ReservedAt(raw, a);
  }

  lemma TouchedIsSpanned(r: Region, a: u64)
    requires r.IsReserved() && r.start + r.length <= TWO64 - PAGE_SIZE && Touches(r, a)
    ensures Spans(r, a)
  {
  }

  /** The last page of the address space is never usable. */
  lemma LastPageNeverUsable(raw: seq<Region>, out: seq<Region>, a: u64)
    requires NormalForm(raw, out) && a >= TWO64 - PAGE_SIZE
    ensures !UsableIn(out, a)
  {
    forall r: Region | r.IsAvailable() ensures !Spans(r, a) {
      assert Hi(r) <= TWO64 - PAGE_SIZE;
    }
  }

  /** Reservations whose rounded end still fits below 2^64, or that lie in the last page. */
  predicate RoundsSafely(r: Region)
  {
    r.start + r.length <= TWO64 - PAGE_SIZE || r.start >= TWO64 - PAGE_SIZE
  }

  /** A reservation is honoured in every table it is part of. */
  ghost predicate AlwaysHonoured(r: Region)
  {
    forall raw: seq<Region>, out: seq<Region>, a: u64 ::
      NormalForm(raw, out) && r in raw && Touches(r, a) ==> !UsableIn(out, a)
  }

  /** A non-empty reservation is honoured exactly when rounding its end up does not wrap. */
  lemma HonouredExactlyWhenRoundingFits(r: Region)
    requires r.IsReserved() && r.length > 0
    ensures AlwaysHonoured(r) <==> RoundsSafely(r)
  {
    if RoundsSafely(r) {
      forall raw: seq<Region>, out: seq<Region>, a: u64 | NormalForm(raw, out) && r in raw && Touches(r, a)
        ensures !UsableIn(out, a)
      {
        if r.start + r.length <= TWO64 - PAGE_SIZE { ReservationWins(raw, out, r, a); }
        else { LastPageNeverUsable(raw, out, a); }
      }
    } else {
      var raw, out, a := LostReservation(r);
      assert NormalForm(raw, out) && r in raw && Touches(r, a);
    }
  }

  /** A wrapped reservation beside one usable page: that page stays usable. */
  lemma LostReservation(r: Region) returns (raw: seq<Region>, out: seq<Region>, a: u64)
    requires r.IsReserved() && r.length > 0 && !RoundsSafely(r)
    ensures NormalForm(raw, out) && r in raw && Touches(r, a) && UsableIn(out, a)
  {
    hide NormalForm;
    a := AlignDown(r.start, PAGE_SIZE);
    var page := Region(a, a + PAGE_SIZE, PAGE_SIZE, AVAILABLE, "RAM");
    raw, out := [r, page], [page];
    forall b: u64 ensures !Spans(r, b) && (Spans(page, b) <==> page.Contains(b)) {
      WrappedSpansNothing(r, b);
    }
    OnePageIsNormalForm(r, page);
    assert page in out;
  }

  lemma WrappedSpansNothing(r: Region, b: u64)
    requires r.IsReserved() && r.start + r.length > TWO64 - PAGE_SIZE
    ensures !Spans(r, b)
  {
  }

  lemma OnePageIsNormalForm(r: Region, page: Region)
    requires r.IsReserved() && page.IsAvailable() && Proper(page)
    requires forall b: u64 :: !Spans(r, b) && (Spans(page, b) <==> page.Contains(b))
    ensures NormalForm([r, page], [page])
  {
    var raw, out := [r, page], [page];
    assert raw[0] == r && raw[1] == page && page in raw && page in out;
    forall b: u64
      ensures !ReservedAt(raw, b) && !ReservedIn(out, b)
      ensures (AvailableAt(raw, b) <==> page.Contains(b)) && (UsableIn(out, b) <==> page.Contains(b))
    {
    }
  }

  /** The usable set does not depend on the order of registration. */
  lemma OrderIndependent(raw1: seq<Region>, out1: seq<Region>, raw2: seq<Region>, out2: seq<Region>, a: u64)
    requires multiset(raw1) == multiset(raw2)
    requires NormalForm(raw1, out1) && NormalForm(raw2, out2)
    requires Exact(raw1, out1) && Exact(raw2, out2)
    ensures UsableIn(out1, a) <==> UsableIn(out2, a)
    ensures ReservedIn(out1, a) <==> ReservedIn(out2, a)
  {
    SameMembers(raw1, raw2);
    assert AvailableAt(raw1, a) <==> AvailableAt(raw2, a);
    assert ReservedAt(raw1, a) <==> ReservedAt(raw2, a);
  }

  method CollectKind(raw: seq<Region>, available: bool) returns (out: seq<Region>)
    requires |raw| <= MAX_REGIONS
    ensures out == Image(raw, available)
  {
    out := [];
    for i := 0 to |raw|
      invariant out == Image(raw[..i], available) && |out| <= i
    {
      assert raw[..i+1][..i] == raw[..i];
      var r := raw[i];
      if Considered(r) && r.IsAvailable() == available && |out| < MAX_REGIONS {
        var s, e := Lo(r), Hi(r);
        if e > s {
          out := out + [Region(s, e, Sub64(e, s), r.kind, r.name)];
        }
      }
    }
    assert raw[..|raw|] == raw;
  }

  lemma PiecesMeaning(raw: seq<Region>, sortedRes: seq<Region>, sortedAvs: seq<Region>)
    requires multiset(sortedRes) == multiset(Image(raw, false)) && MergeInput(sortedRes, false)
    requires multiset(sortedAvs) == multiset(Image(raw, true)) && MergeInput(sortedAvs, true)
    ensures var res := Merge(sortedRes, false);
            var pieces := RemoveAll(Merge(sortedAvs, true), res);
            && (forall a: u64 :: Covered(res, a) <==> ReservedAt(raw, a))
            && (forall a: u64 :: Covered(pieces, a) <==> AvailableAt(raw, a) && !ReservedAt(raw, a))
  {
    var res := Merge(sortedRes, false);
    var pieces := RemoveAll(Merge(sortedAvs, true), res);
    forall a: u64
      ensures Covered(res, a) <==> ReservedAt(raw, a)
      ensures Covered(pieces, a) <==> AvailableAt(raw, a) && !ReservedAt(raw, a)
    {
      MergeMeaning(raw, sortedRes, false, a);
      MergeMeaning(raw, sortedAvs, true, a);
      MergeShape(sortedRes, false);
      MergeShape(sortedAvs, true);
      RemoveAllCovers(Merge(sortedAvs, true), res, a);
    }
  }

  lemma MergeMeaning(raw: seq<Region>, sorted: seq<Region>, available: bool, a: u64)
    requires multiset(sorted) == multiset(Image(raw, available)) && MergeInput(sorted, available)
    ensures Covered(Merge(sorted, available), a) <==> if available then AvailableAt(raw, a) else ReservedAt(raw, a)
  {
    MergeCovers(sorted, available, a);
    SameMembers(sorted, Image(raw, available));
    ImageCovers(raw, available, a);
  }
}
