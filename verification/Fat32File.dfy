/** kernel/fs/fat32.cpp, Fat32VNode: reading, writing and truncating files. */
module Fat32Files {
  import opened Ram
  import opened FatDisk
  import opened FatChains
  import opened Fat32
  import opened FileContent

  // ---------------------------------------------------------------- how a file changes

  /** The chain a first cluster leads to; none for a file without clusters. */
  ghost predicate Leads(fat: seq<nat>, first: nat, chain: seq<nat>)
  {
    if first < 2 then chain == [] else StartsAt(fat, chain, first)
  }

  /** A volume's tables have the geometry's size. */
  ghost predicate Shaped(v: Volume, n: nat, bpc: nat)
  {
    |v.fat| == n && |v.data| == n && 2 <= n < EOC_MIN && forall c :: 2 <= c < n ==> |v.data[c]| == bpc
  }

  /** From `a` to `b` only clusters of the chain changed, and it grew by clusters that were free. */
  ghost predicate Grew(a: Volume, ca: seq<nat>, b: Volume, cb: seq<nat>)
  {
    && |b.fat| == |a.fat| == |a.data| == |b.data| && ca <= cb
    && (forall i :: |ca| <= i < |cb| ==> 2 <= cb[i] < |a.fat| && a.fat[cb[i]] == 0)
    && (forall c :: 2 <= c < |a.fat| && c !in cb ==> b.fat[c] == a.fat[c] && b.data[c] == a.data[c])
  }

  /** The content of `ca` padded with zeroes to the length of `cb`. */
  ghost function Padded(a: Volume, ca: seq<nat>, n: nat, bpc: nat): seq<Byte>
    requires (forall i :: 0 <= i < |ca| ==> ca[i] < |a.data|) && |ca| <= n
  {
    Content(a.data, ca) + Zeros(Times(n - |ca|, bpc))
  }

  /** The file now reads as it did, zero-padded, with `src` laid over it at `offset`. */
  ghost predicate Shows(a: Volume, ca: seq<nat>, b: Volume, cb: seq<nat>, bpc: nat, offset: nat, src: seq<Byte>)
  {
    && Sizes(a.data, ca, bpc) && Sizes(b.data, cb, bpc) && |ca| <= |cb|
    && offset + |src| <= |Padded(a, ca, |cb|, bpc)|
    && Content(b.data, cb) == Splice(Padded(a, ca, |cb|, bpc), offset, src)
  }

  /** Everything a write keeps while it is under way. */
  ghost predicate Writing(a: Volume, ca: seq<nat>, b: Volume, cb: seq<nat>, n: nat, bpc: nat, offset: nat,
                          src: seq<Byte>)
  {
    Shaped(a, n, bpc) && Shaped(b, n, bpc) && Grew(a, ca, b, cb) && Shows(a, ca, b, cb, bpc, offset, src)
  }

  lemma PaddedLength(a: Volume, ca: seq<nat>, n: nat, bpc: nat)
    requires Sizes(a.data, ca, bpc) && |ca| <= n
    ensures |Padded(a, ca, n, bpc)| == Times(n, bpc)
  {
    ContentLength(a.data, ca, bpc);
    assert Times(|ca|, bpc) + Times(n - |ca|, bpc) == Times(n, bpc);
  }

  lemma ChainSizes(v: Volume, chain: seq<nat>, n: nat, bpc: nat)
    requires Shaped(v, n, bpc) && forall i :: 0 <= i < |chain| ==> 2 <= chain[i] < n
    ensures Sizes(v.data, chain, bpc)
  {
  }

  lemma WritingStarts(a: Volume, first: nat, chain: seq<nat>, n: nat, bpc: nat)
    requires Shaped(a, n, bpc) && Leads(a.fat, first, chain)
    ensures Writing(a, chain, a, chain, n, bpc, 0, [])
  {
    ChainSizes(a, chain, n, bpc);
    var c := Content(a.data, chain);
    assert Times(0, bpc) == 0 && Zeros(0) == [];
    assert Padded(a, chain, |chain|, bpc) == c + [] == c;
    assert Splice(c, 0, []) == c;
  }

  lemma SpliceNothing(b: seq<Byte>, at: nat)
    requires at <= |b|
    ensures Splice(b, at, []) == b
  {
  }

  /** Nothing written yet: any position inside will do. */
  lemma WritingFrom(a: Volume, ca: seq<nat>, b: Volume, cb: seq<nat>, n: nat, bpc: nat, offset: nat)
    requires Writing(a, ca, b, cb, n, bpc, 0, []) && offset <= Times(|cb|, bpc)
    ensures Writing(a, ca, b, cb, n, bpc, offset, [])
  {
    hide Times, Content, Padded, Shaped, Grew;
    PaddedLength(a, ca, |cb|, bpc);
    SpliceNothing(Padded(a, ca, |cb|, bpc), 0);
    SpliceNothing(Padded(a, ca, |cb|, bpc), offset);
  }

  /** A cleared cluster joins the chain. */
  lemma WritingAppends(a: Volume, ca: seq<nat>, b: Volume, cb: seq<nat>, n: nat, bpc: nat, offset: nat, src: seq<Byte>,
                       c: nat, fat: seq<nat>)
    requires Writing(a, ca, b, cb, n, bpc, offset, src) && 2 <= c < n && b.fat[c] == 0 && c !in cb
    requires |fat| == n && forall d :: 2 <= d < n && d != c && d !in cb ==> fat[d] == b.fat[d]
    ensures Writing(a, ca, Volume(fat, b.data[c := Zeros(bpc)]), cb + [c], n, bpc, offset, src)
  {
    hide Times, Content;
    var b' := Volume(fat, b.data[c := Zeros(bpc)]);
    assert Shaped(b', n, bpc);
    assert Grew(a, ca, b', cb + [c]);
    ContentAppend(b.data, cb, c, Zeros(bpc));
    PaddedGrows(a, ca, |cb|, bpc);
    SpliceLonger(Padded(a, ca, |cb|, bpc), offset, src, Zeros(bpc));
    assert Sizes(b'.data, cb + [c], bpc);
  }

  lemma PaddedGrows(a: Volume, ca: seq<nat>, n: nat, bpc: nat)
    requires (forall i :: 0 <= i < |ca| ==> ca[i] < |a.data|) && |ca| <= n
    ensures Padded(a, ca, n + 1, bpc) == Padded(a, ca, n, bpc) + Zeros(bpc)
  {
    hide Content;
    TimesStep(n - |ca|, bpc);
    ZerosAdd(Times(n - |ca|, bpc), bpc);
  }

  /** A piece is written into cluster `k`, right behind what was written before. */
  lemma WritingContinues(a: Volume, ca: seq<nat>, b: Volume, cb: seq<nat>, n: nat, bpc: nat, offset: nat,
                         src: seq<Byte>, k: nat, at: nat, part: seq<Byte>)
    requires Writing(a, ca, b, cb, n, bpc, offset, src) && DistinctClusters(cb) && k < |cb| && 2 <= cb[k]
             && at + |part| <= bpc
    requires offset + |src| == Times(k, bpc) + at
    ensures cb[k] < n
    ensures Writing(a, ca, Volume(b.fat, b.data[cb[k] := Splice(b.data[cb[k]], at, part)]), cb, n, bpc, offset,
              src + part)
  {
    hide Times, Content, Padded;
    PartialWrite(b.data, cb, bpc, k, at, part);
    var p := Padded(a, ca, |cb|, bpc);
    assert |Content(b.data, cb)| == |p|;
    SpliceTwice(p, offset, src, part);
  }

  // ---------------------------------------------------------------- steps on the disk

  ghost function Vol(fs: Fat32Filesystem): Volume
    reads fs, fs.dev
    requires fs.g.Fits(|fs.dev.sectors|)
  {
    Volume(fs.Fat(), fs.Data())
  }

  lemma VolShaped(fs: Fat32Filesystem)
    requires fs.Valid()
    ensures Shaped(Vol(fs), fs.g.total + 2, fs.g.ClusterBytes())
  {
  }

  /** Clusters that could still be allocated: none. */
  ghost predicate Full(fat: seq<nat>)
  {
    |fat| >= 2 && FirstFree(fat, 2) == |fat|
  }

  lemma FullExactly(fat: seq<nat>)
    requires |fat| >= 2
    ensures Full(fat) <==> FreeClusters(fat) == {}
  {
    if FirstFree(fat, 2) < |fat| { assert FirstFree(fat, 2) in FreeClusters(fat); }
    if !Full(fat) { assert FreeClusters(fat) != {}; }
  }

  ghost function ClustersFrom(chain: seq<nat>, k: nat): set<nat>
    requires k <= |chain|
  {
    set i | k <= i < |chain| :: chain[i]
  }

  lemma {:induction false} DistinctCount(chain: seq<nat>, k: nat)
    requires DistinctClusters(chain) && k <= |chain|
    ensures |ClustersFrom(chain, k)| == |chain| - k
    decreases |chain| - k
  {
    if k < |chain| {
      DistinctCount(chain, k + 1);
      assert ClustersFrom(chain, k) == {chain[k]} + ClustersFrom(chain, k + 1);
    }
  }

  /** Clusters are conserved: what a chain gained, the free ones lost. */
  lemma ClustersConserved(a: Volume, ca: seq<nat>, b: Volume, cb: seq<nat>)
    requires Grew(a, ca, b, cb) && (ca != [] ==> IsChain(a.fat, ca)) && (cb != [] ==> IsChain(b.fat, cb))
    ensures |FreeClusters(b.fat)| + |cb| == |FreeClusters(a.fat)| + |ca|
  {
    hide IsChain, Grew;
    assert |ca| <= |cb| && DistinctClusters(cb) && |b.fat| == |a.fat| by { GrewParts(a, ca, b, cb); }
    var gained := ClustersFrom(cb, |ca|);
    DistinctCount(cb, |ca|);
    forall c: nat
      ensures c in FreeClusters(b.fat) <==> c in FreeClusters(a.fat) && c !in gained
    {
      FreeAfter(a, ca, b, cb, c);
    }
    assert FreeClusters(b.fat) == FreeClusters(a.fat) - gained;
    forall c | c in gained ensures c in FreeClusters(a.fat) { GainedWasFree(a, ca, b, cb, c); }
    assert gained <= FreeClusters(a.fat);
  }

  lemma GrewParts(a: Volume, ca: seq<nat>, b: Volume, cb: seq<nat>)
    requires Grew(a, ca, b, cb) && (cb != [] ==> IsChain(b.fat, cb))
    ensures |ca| <= |cb| && DistinctClusters(cb) && |b.fat| == |a.fat|
  {
  }

  lemma GainedWasFree(a: Volume, ca: seq<nat>, b: Volume, cb: seq<nat>, c: nat)
    requires Grew(a, ca, b, cb) && c in ClustersFrom(cb, |ca|)
    ensures c in FreeClusters(a.fat)
  {
  }

  lemma FreeAfter(a: Volume, ca: seq<nat>, b: Volume, cb: seq<nat>, c: nat)
    requires Grew(a, ca, b, cb) && (ca != [] ==> IsChain(a.fat, ca)) && (cb != [] ==> IsChain(b.fat, cb))
    ensures c in FreeClusters(b.fat) <==> c in FreeClusters(a.fat) && c !in ClustersFrom(cb, |ca|)
  {
    hide IsChain;
    if 2 <= c < |a.fat| && c in cb {
      var i :| 0 <= i < |cb| && cb[i] == c;
      UsedInChain(b.fat, cb, i);
      if i < |ca| {
        assert ca[i] == c;
        UsedInChain(a.fat, ca, i);
      } else {
        assert c in ClustersFrom(cb, |ca|);
      }
    }
  }

  lemma UsedInChain(fat: seq<nat>, chain: seq<nat>, i: nat)
    requires IsChain(fat, chain) && i < |chain|
    ensures fat[chain[i]] != 0
  {
    if i < |chain| - 1 { assert fat[chain[i]] == chain[i + 1]; }
  }

  lemma LinkAt(fat: seq<nat>, chain: seq<nat>, k: nat)
    requires IsChain(fat, chain) && k < |chain| && |fat| < EOC_MIN
    ensures 2 <= chain[k] < |fat| && k < |fat| - 2
    ensures k + 1 < |chain| ==> fat[chain[k]] == chain[k + 1] && 2 <= chain[k + 1] < EOC_MIN
    ensures k + 1 == |chain| ==> fat[chain[k]] >= EOC_MIN
  {
    ChainFits(fat, chain);
  }

  /** The cluster after position `k`: linked already, or allocated and linked now. */
  method NextForWrite(fs: Fat32Filesystem, curr: nat, ghost k: nat, ghost chain: seq<nat>, ghost a: Volume,
                      ghost ca: seq<nat>, ghost offset: nat, ghost src: seq<Byte>)
    returns (next: nat, ghost chain': seq<nat>)
    requires fs.Valid() && IsChain(fs.Fat(), chain) && k < |chain| && curr == chain[k]
    requires Writing(a, ca, Vol(fs), chain, fs.g.total + 2, fs.g.ClusterBytes(), offset, src)
    modifies fs.dev
    ensures fs.Valid() && chain <= chain' && IsChain(fs.Fat(), chain')
    ensures Writing(a, ca, Vol(fs), chain', fs.g.total + 2, fs.g.ClusterBytes(), offset, src)
    ensures next >= 2 ==>
              k + 1 < |chain'| && chain'[k + 1] == next && (chain' == chain || k + 1 == |chain| == |chain'| - 1)
    ensures next < 2 ==> chain' == chain && k + 1 == |chain| && Full(fs.Fat())
  {
    hide Fat32Filesystem.Valid, IsChain, Writing, FatOf, DataOf, Geometry.Fits, Taken;
    FitsNow(fs);
    Sized(fs);
    chain' := chain;
    LinkAt(fs.Fat(), chain, k);
    next := fs.ReadFatEntry(curr);
    if next >= EOC_MIN || next < 2 {
      ghost var b := Vol(fs);
      next := fs.AllocCluster(curr);
      FitsNow(fs);
      if next >= 2 {
        chain' := chain + [next];
        AppendedChain(a, ca, b, chain, fs.g.total + 2, fs.g.ClusterBytes(), offset, src, next);
      }
    }
  }

  lemma FitsNow(fs: Fat32Filesystem)
    requires fs.Valid()
    ensures fs.g.Fits(|fs.dev.sectors|)
  {
  }

  lemma AppendedChain(a: Volume, ca: seq<nat>, b: Volume, cb: seq<nat>, n: nat, bpc: nat, offset: nat, src: seq<Byte>,
                      c: nat)
    requires Writing(a, ca, b, cb, n, bpc, offset, src) && IsChain(b.fat, cb) && 2 <= c < n == |b.fat| && b.fat[c] == 0
    ensures var last := cb[|cb| - 1];
            && IsChain(Taken(b.fat, last, c), cb + [c])
            && Writing(a, ca, Volume(Taken(b.fat, last, c), b.data[c := Zeros(bpc)]), cb + [c], n, bpc, offset, src)
  {
    hide Writing;
    ExtendedChain(b.fat, cb, c);
    FreeIsOutside(b.fat, cb, c);
    assert |b.data| == n by { WritingSized(a, ca, b, cb, n, bpc, offset, src); }
    WritingAppends(a, ca, b, cb, n, bpc, offset, src, c, Taken(b.fat, cb[|cb| - 1], c));
  }

  lemma WritingSized(a: Volume, ca: seq<nat>, b: Volume, cb: seq<nat>, n: nat, bpc: nat, offset: nat, src: seq<Byte>)
    requires Writing(a, ca, b, cb, n, bpc, offset, src)
    ensures |b.data| == n && |b.fat| == n
  {
  }

  /** The first cluster of a file that has none yet. */
  lemma FirstAppended(a: Volume, n: nat, bpc: nat, c: nat)
    requires Shaped(a, n, bpc) && 2 <= c < n && a.fat[c] == 0
    ensures IsChain(Taken(a.fat, 0, c), [c])
    ensures Writing(a, [], Volume(Taken(a.fat, 0, c), a.data[c := Zeros(bpc)]), [c], n, bpc, 0, [])
  {
    hide Writing;
    WritingStarts(a, 0, [], n, bpc);
    WritingAppends(a, [], a, [], n, bpc, 0, [], c, Taken(a.fat, 0, c));
    assert [] + [c] == [c];
  }

  /** The seek of a write: walks to cluster `target`, extending the chain where it ends too early. The hop count does
      not interfere. */
  method SeekForWrite(fs: Fat32Filesystem, first: nat, target: nat, ghost chain: seq<nat>, ghost a: Volume,
                      ghost ca: seq<nat>)
    returns (ok: bool, curr: nat, ghost chain': seq<nat>)
    requires fs.Valid() && StartsAt(fs.Fat(), chain, first)
    requires Writing(a, ca, Vol(fs), chain, fs.g.total + 2, fs.g.ClusterBytes(), 0, [])
    modifies fs.dev
    ensures fs.Valid() && chain <= chain' && StartsAt(fs.Fat(), chain', first)
    ensures Writing(a, ca, Vol(fs), chain', fs.g.total + 2, fs.g.ClusterBytes(), 0, [])
    ensures ok ==> target < |chain'| && curr == chain'[target] && (chain' == chain || |chain'| == target + 1)
    ensures !ok ==> Full(fs.Fat()) && |chain'| <= target
  {
    hide Fat32Filesystem.Valid, IsChain, Writing, FatOf, DataOf, Geometry.Fits, Full;
    FitsNow(fs);
    Sized(fs);
    curr, chain' := first, chain;
    StartIsFirst(fs.Fat(), chain, first);
    var hops := 0;
    for i := 0 to target
      invariant fs.Valid() && fs.g.Fits(|fs.dev.sectors|) && |fs.Fat()| == fs.g.total + 2 && chain <= chain'
                && IsChain(fs.Fat(), chain')
      invariant Writing(a, ca, Vol(fs), chain', fs.g.total + 2, fs.g.ClusterBytes(), 0, [])
      invariant hops == i && i < |chain'| && curr == chain'[i] && (chain' == chain || |chain'| == i + 1)
    {
      LinkAt(fs.Fat(), chain', i);
      hops := hops + 1;
      if hops > fs.g.total { return false, curr, chain'; }
      var next;
      next, chain' := NextForWrite(fs, curr, i, chain', a, ca, 0, []);
      FitsNow(fs);
      Sized(fs);
      if next < 2 { return false, curr, chain'; }
      curr := next;
    }
    ok := true;
  }

  lemma StartIsFirst(fat: seq<nat>, chain: seq<nat>, first: nat)
    requires StartsAt(fat, chain, first)
    ensures chain != [] && chain[0] == first && IsChain(fat, chain)
  {
  }

  /** One chunk: the cluster is read first unless it is overwritten entirely. */
  method WriteChunk(fs: Fat32Filesystem, curr: nat, at: nat, part: seq<Byte>)
    requires fs.Valid() && 2 <= curr < fs.g.total + 2 && at + |part| <= fs.g.ClusterBytes()
    modifies fs.dev
    ensures fs.Valid() && fs.Fat() == old(fs.Fat()) && curr < |old(fs.Data())|
            && |old(fs.Data())[curr]| == fs.g.ClusterBytes()
    ensures fs.Data() == old(fs.Data())[curr := Splice(old(fs.Data())[curr], at, part)]
  {
    hide CopiesAgree;
    var bpc := fs.g.ClusterBytes();
    var buf := Zeros(bpc);
    if at > 0 || |part| < bpc {
      buf := fs.ReadCluster(curr);
    }
    ghost var before := fs.Data()[curr];
    assert Splice(buf, at, part) == Splice(before, at, part);
    buf := Splice(buf, at, part);
    fs.WriteCluster(curr, buf);
  }

  /** The write loop from cluster `k`, offset `at` in it. It stops early only on a full volume. */
  method WriteChunks(fs: Fat32Filesystem, first: nat, start: nat, startAt: nat, src: seq<Byte>, ghost from: nat,
                     ghost chain: seq<nat>, ghost a: Volume, ghost ca: seq<nat>, ghost offset: nat)
    returns (written: nat, ghost chain': seq<nat>)
    requires fs.Valid() && StartsAt(fs.Fat(), chain, first) && from < |chain| && start == chain[from] && src != []
    requires startAt < fs.g.ClusterBytes() && offset == Times(from, fs.g.ClusterBytes()) + startAt
    requires Writing(a, ca, Vol(fs), chain, fs.g.total + 2, fs.g.ClusterBytes(), offset, [])
    modifies fs.dev
    ensures fs.Valid() && StartsAt(fs.Fat(), chain', first) && 0 < written <= |src|
    ensures Writing(a, ca, Vol(fs), chain', fs.g.total + 2, fs.g.ClusterBytes(), offset, src[..written])
    ensures written < |src| ==> Full(fs.Fat()) && offset + written == Times(|chain'|, fs.g.ClusterBytes())
    ensures chain' == chain || (|chain'| > |chain| && Times(|chain'| - 1, fs.g.ClusterBytes()) < offset + written)
  {
    hide Fat32Filesystem.Valid, IsChain, Writing, FatOf, DataOf, Geometry.Fits, Full, Times, Splice;
    var bpc := fs.g.ClusterBytes();
    var curr: nat, at: nat := start, startAt;
    ghost var k: nat := from;
    written, chain' := 0, chain;
    FitsNow(fs);
    StartIsFirst(fs.Fat(), chain, first);
    Sized(fs);
    assert src[..0] == [];
    while written < |src|
      invariant fs.Valid() && fs.g.Fits(|fs.dev.sectors|) && |fs.Fat()| == fs.g.total + 2 && IsChain(fs.Fat(), chain')
                && chain <= chain'
      invariant 0 <= written <= |src| && Writing(a, ca, Vol(fs), chain', fs.g.total + 2, bpc, offset, src[..written])
      invariant written < |src| ==>
                  k < |chain'| && curr == chain'[k] && at < bpc && offset + written == Times(k, bpc) + at
      invariant chain' == chain
                || (|chain'| > |chain|
                    && if written < |src| then k == |chain'| - 1 else Times(|chain'| - 1, bpc) < offset + written)
      decreases |src| - written
    {
      LinkAt(fs.Fat(), chain', k);
      var chunk := if bpc - at > |src| - written then |src| - written else bpc - at;
      ghost var b := Vol(fs);
      ChunkWritten(a, ca, b, chain', fs.g.total + 2, bpc, offset, src, written, k, at, chunk);
      WriteChunk(fs, curr, at, src[written..written + chunk]);
      FitsNow(fs);
      written := written + chunk;
      at := 0;
      if written < |src| {
        var next;
        next, chain' := NextForWrite(fs, curr, k, chain', a, ca, offset, src[..written]);
        FitsNow(fs);
        Sized(fs);
        TimesStep(k, bpc);
        if next < 2 { break; }
        curr := next;
        k := k + 1;
      }
    }
    StartKept(fs.Fat(), chain, chain', first);
  }

  lemma StartKept(fat: seq<nat>, chain: seq<nat>, chain': seq<nat>, first: nat)
    requires IsChain(fat, chain') && chain != [] && chain <= chain' && chain[0] == first
    ensures StartsAt(fat, chain', first)
  {
  }

  lemma ChunkWritten(a: Volume, ca: seq<nat>, b: Volume, cb: seq<nat>, n: nat, bpc: nat, offset: nat, src: seq<Byte>,
                     written: nat, k: nat, at: nat, chunk: nat)
    requires written + chunk <= |src| && Writing(a, ca, b, cb, n, bpc, offset, src[..written]) && IsChain(b.fat, cb)
    requires k < |cb| && at + chunk <= bpc && offset + written == Times(k, bpc) + at
    ensures cb[k] < |b.data| && |b.data[cb[k]]| == bpc
    ensures Writing(a, ca, Volume(b.fat, b.data[cb[k] := Splice(b.data[cb[k]], at, src[written..written + chunk])]), cb,
              n, bpc, offset, src[..written + chunk])
  {
    hide Times, Content, Padded, Splice;
    assert src[..written + chunk] == src[..written] + src[written..written + chunk];
    WritingContinues(a, ca, b, cb, n, bpc, offset, src[..written], k, at, src[written..written + chunk]);
  }
}
