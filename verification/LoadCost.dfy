/** What mapping a set of pages costs: a frame for each page, and one for each table on its way that is not there
    yet. */
module LoadCost {
  import opened Machine
  import opened PagingTypes
  import opened Ram
  import opened PageTables
  import opened Vmm

  /** The indices that select the table `k` steps below the root. */
  function Lead(p: Path, k: nat): (s: seq<int>)
    requires k <= 3
    ensures |s| == k
  {
    if k == 0 then [] else if k == 1 then [p.i4] else if k == 2 then [p.i4, p.i3] else [p.i4, p.i3, p.i2]
  }

  lemma LeadIsCommon(p: Path, q: Path, k: nat)
    requires k <= 3
    ensures Lead(p, k) == Lead(q, k) <==> Common(p, q) >= k
  {
    if k > 0 && Lead(p, k) == Lead(q, k) {
      assert Lead(p, k)[0] == Lead(q, k)[0];
      assert k >= 2 ==> Lead(p, k)[1] == Lead(q, k)[1];
      assert k >= 3 ==> Lead(p, k)[2] == Lead(q, k)[2];
    }
  }

  predicate Step(k: nat)
  {
    1 <= k <= 3
  }

  /** The tables missing for some of the pages, each once. */
  ghost function Needed(mem: Memory, r: nat, pages: set<u64>): set<seq<int>>
  {
    set va, k: nat | va in pages && 1 <= k <= 3 && Depth(mem, r, PathOf(va)) < k :: Lead(PathOf(va), k)
  }

  ghost function Cost(mem: Memory, r: nat, pages: set<u64>): nat
  {
    |pages| + |Needed(mem, r, pages)|
  }

  /** Some page shares the first `k` indices of the path. */
  ghost predicate Shared(pages: set<u64>, q: Path, k: nat)
  {
    exists va :: va in pages && Common(PathOf(va), q) >= k
  }

  /** From `mem` to `mem'` the lower half of `r` gained exactly the tables of these pages. */
  ghost predicate Built(mem: Memory, mem': Memory, r: nat, pages: set<u64>)
  {
    forall q: Path, k: nat {:trigger Depth(mem', r, q), Step(k)} :: q.i4 < 256 && Step(k) ==>
      (Depth(mem', r, q) >= k <==> Depth(mem, r, q) >= k || Shared(pages, q, k))
  }

  lemma BuiltNothing(mem: Memory, r: nat)
    ensures Built(mem, mem, r, {}) && Cost(mem, r, {}) == 0
  {
    hide Depth, PathOf;
    assert Needed(mem, r, {}) == {};
  }

  lemma BuiltSame(mem: Memory, b: Memory, c: Memory, r: nat, pages: set<u64>)
    requires Built(mem, b, r, pages) && forall q: Path :: Depth(c, r, q) == Depth(b, r, q)
    ensures Built(mem, c, r, pages)
  {
    hide Depth, Shared;
    forall q: Path, k: nat | q.i4 < 256 && Step(k)
      ensures Depth(c, r, q) >= k <==> Depth(mem, r, q) >= k || Shared(pages, q, k)
    {
      assert Depth(c, r, q) == Depth(b, r, q);
    }
  }

  /** One more page, all its tables in place. */
  lemma BuiltNext(mem: Memory, b: Memory, c: Memory, r: nat, pages: set<u64>, va: u64)
    requires Built(mem, b, r, pages) && Deepened(b, c, r, PathOf(va)) && Depth(c, r, PathOf(va)) == 3
    ensures Built(mem, c, r, pages + {va})
  {
    hide Depth, Common, PathOf;
    forall q: Path, k: nat | q.i4 < 256 && Step(k)
      ensures Depth(c, r, q) >= k <==> Depth(mem, r, q) >= k || Shared(pages + {va}, q, k)
    {
      assert Depth(b, r, q) >= k <==> Depth(mem, r, q) >= k || Shared(pages, q, k);
      SharedMore(pages, va, q, k);
    }
  }

  lemma SharedMore(pages: set<u64>, va: u64, q: Path, k: nat)
    ensures Shared(pages + {va}, q, k) <==> Shared(pages, q, k) || Common(PathOf(va), q) >= k
  {
    hide Common, PathOf;
    if Shared(pages, q, k) {
      var x :| x in pages && Common(PathOf(x), q) >= k;
      assert x in pages + {va};
    }
    assert va in pages + {va};
  }

  /** The tables the next page still needs. */
  function Missing(p: Path, d: nat): (s: set<seq<int>>)
    requires d <= 3
    ensures |s| == 3 - d
  {
    if d == 0 then LeadsDiffer(p); {Lead(p, 1), Lead(p, 2), Lead(p, 3)}
    else if d == 1 then LeadsDiffer(p); {Lead(p, 2), Lead(p, 3)}
    else if d == 2 then {Lead(p, 3)}
    else {}
  }

  lemma LeadsDiffer(p: Path)
    ensures Lead(p, 1) != Lead(p, 2) && Lead(p, 2) != Lead(p, 3) && Lead(p, 1) != Lead(p, 3)
    ensures |{Lead(p, 1), Lead(p, 2), Lead(p, 3)}| == 3 && |{Lead(p, 2), Lead(p, 3)}| == 2
  {
    assert |Lead(p, 1)| == 1 && |Lead(p, 2)| == 2 && |Lead(p, 3)| == 3;
  }

  lemma MissingMember(p: Path, d: nat, x: seq<int>)
    requires d <= 3
    ensures x in Missing(p, d) <==> exists k: nat :: d < k <= 3 && x == Lead(p, k)
  {
    hide Lead;
    if x in Missing(p, d) {
      if d < 1 && x == Lead(p, 1) { assert d < 1 <= 3; }
      if d < 2 && x == Lead(p, 2) { assert d < 2 <= 3; }
      if d < 3 && x == Lead(p, 3) { assert d < 3 <= 3; }
    }
  }

  /** A page costs one frame and the tables missing on its way. */
  lemma CostNext(mem: Memory, b: Memory, r: nat, pages: set<u64>, va: u64)
    requires Built(mem, b, r, pages) && va !in pages && PathOf(va).i4 < 256
    ensures Cost(mem, r, pages + {va}) == Cost(mem, r, pages) + 4 - Depth(b, r, PathOf(va))
  {
    hide Depth, PathOf, Lead, Missing, Common, Needed, Built, Shared;
    var p, d := PathOf(va), Depth(b, r, PathOf(va));
    forall x ensures x in Needed(mem, r, pages + {va}) <==> x in Needed(mem, r, pages) || x in Missing(p, d) {
      NeededNext(mem, b, r, pages, va, x);
    }
    assert Needed(mem, r, pages + {va}) == Needed(mem, r, pages) + Missing(p, d);
    forall x | x in Missing(p, d) ensures x !in Needed(mem, r, pages) {
      MissingMember(p, d, x);
      var k: nat :| d < k <= 3 && x == Lead(p, k);
      NotNeeded(mem, b, r, pages, p, k);
    }
    assert Needed(mem, r, pages) !! Missing(p, d);
  }

  lemma NotNeeded(mem: Memory, b: Memory, r: nat, pages: set<u64>, p: Path, k: nat)
    requires Built(mem, b, r, pages) && p.i4 < 256 && Step(k) && Depth(b, r, p) < k
    ensures Lead(p, k) !in Needed(mem, r, pages)
  {
    hide Depth, PathOf, Common, Lead;
    forall va, k': nat | va in pages && 1 <= k' <= 3 ensures Lead(PathOf(va), k') != Lead(p, k) {
      if k' == k {
        LeadIsCommon(PathOf(va), p, k);
        assert Common(PathOf(va), p) >= k ==> Shared(pages, p, k);
      }
    }
  }

  lemma NeededNext(mem: Memory, b: Memory, r: nat, pages: set<u64>, va: u64, x: seq<int>)
    requires Built(mem, b, r, pages) && PathOf(va).i4 < 256
    ensures x in Needed(mem, r, pages + {va}) <==>
              x in Needed(mem, r, pages) || x in Missing(PathOf(va), Depth(b, r, PathOf(va)))
  {
    hide Depth, PathOf, Lead, Missing, Common;
    var p, d := PathOf(va), Depth(b, r, PathOf(va));
    MissingMember(p, d, x);
    if x in Needed(mem, r, pages + {va}) {
      var v, k: nat :| v in pages + {va} && 1 <= k <= 3 && Depth(mem, r, PathOf(v)) < k && x == Lead(PathOf(v), k);
      if v !in pages && k <= d {
        assert Step(k);
        ElsewhereNeeded(mem, b, r, pages, p, k);
      }
    }
    if x in Needed(mem, r, pages) {
      var v, k: nat :| v in pages && 1 <= k <= 3 && Depth(mem, r, PathOf(v)) < k && x == Lead(PathOf(v), k);
      assert v in pages + {va};
    }
    if k: nat :| d < k <= 3 && x == Lead(p, k) {
      assert Step(k) && va in pages + {va};
    }
  }

  /** A table that is there now and was not before is needed by some page already. */
  lemma ElsewhereNeeded(mem: Memory, b: Memory, r: nat, pages: set<u64>, p: Path, k: nat)
    requires Built(mem, b, r, pages) && p.i4 < 256 && Step(k) && Depth(mem, r, p) < k <= Depth(b, r, p)
    ensures Lead(p, k) in Needed(mem, r, pages)
  {
    hide Depth, PathOf, Common, Lead;
    assert Shared(pages, p, k);
    var v :| v in pages && Common(PathOf(v), p) >= k;
    LeadIsCommon(PathOf(v), p, k);
    CommonDepth(mem, r, PathOf(v), p);
  }

  /** Where no table is there yet, all on the way are needed. */
  ghost function Prefixes(pages: set<u64>): set<seq<int>>
  {
    set va, k: nat | va in pages && 1 <= k <= 3 :: Lead(PathOf(va), k)
  }

  lemma AllNeeded(mem: Memory, r: nat, pages: set<u64>)
    requires forall va :: va in pages ==> Depth(mem, r, PathOf(va)) == 0
    ensures Needed(mem, r, pages) == Prefixes(pages)
  {
    hide Depth, PathOf, Lead;
  }

  lemma SmallerSet<T>(a: set<T>, b: set<T>)
    requires a <= b
    ensures |a| <= |b| && (a != b ==> |a| < |b|)
  {
    assert b == a + (b - a) && a !! (b - a);
    assert |b| == |a| + |b - a|;
  }
}
