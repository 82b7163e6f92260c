/** What the FAT32 driver promises: a file behaves as a byte array, and the FAT stays a set of disjoint chains. */
module FileTheorems {
  import opened Ram
  import opened FatDisk
  import opened FatChains
  import opened Fat32
  import opened FileContent
  import opened Fat32Files
  import opened Fat32Nodes

  // ---------------------------------------------------------------- the byte array

  /** Bytes `[lo, hi)` are zero. */
  predicate ZeroBetween(b: seq<Byte>, lo: int, hi: int)
  {
    forall i :: 0 <= lo <= i < hi && i < |b| ==> b[i] == 0
  }

  /** What the content becomes, byte by byte: the data written, else the old byte, else zero. */
  lemma ByteAfterWrite(a: Volume, ca: seq<nat>, b: Volume, cb: seq<nat>, n: nat, bpc: nat, offset: nat, src: seq<Byte>,
                       i: nat)
    requires Writing(a, ca, b, cb, n, bpc, offset, src) && i < |Content(b.data, cb)|
    ensures Content(b.data, cb)[i] ==
              if offset <= i < offset + |src| then src[i - offset]
              else if i < |Content(a.data, ca)| then Content(a.data, ca)[i] else 0
  {
    hide Content, Times;
  }

  /** Reading where one has just written returns what was written. */
  lemma WriteReadsBack(a: Volume, ca: seq<nat>, b: Volume, cb: seq<nat>, n: nat, bpc: nat, offset: nat, src: seq<Byte>)
    requires Writing(a, ca, b, cb, n, bpc, offset, src)
    ensures offset + |src| <= |Content(b.data, cb)| && Content(b.data, cb)[offset..offset + |src|] == src
  {
    hide Content, Times, Padded;
  }

  /** `data` laid over a file at `offset`. Beyond the old end the file shows what was in its last clusters, and
      zeroes after that. */
  function Overlay(bytes: seq<Byte>, slack: seq<Byte>, offset: nat, data: seq<Byte>): (r: seq<Byte>)
    ensures |r| == Larger(|bytes|, offset + |data|)
  {
    seq(Larger(|bytes|, offset + |data|), i requires i >= 0 => OverlayByte(bytes, slack, offset, data, i))
  }

  function OverlayByte(bytes: seq<Byte>, slack: seq<Byte>, offset: nat, data: seq<Byte>, i: nat): Byte
  {
    if offset <= i < offset + |data| then data[i - offset]
    else if i < |bytes| then bytes[i]
    else if i < |bytes| + |slack| then slack[i - |bytes|] else 0
  }

  predicate AllZero(b: seq<Byte>)
  {
    forall i :: 0 <= i < |b| ==> b[i] == 0
  }

  /** Over cleared clusters that is an ordinary array with zeroes in the gap. */
  lemma OverlayZero(bytes: seq<Byte>, slack: seq<Byte>, offset: nat, data: seq<Byte>)
    requires AllZero(slack)
    ensures Overlay(bytes, slack, offset, data) == Overlay(bytes, [], offset, data)
  {
  }

  /** The file after a write and the directory update that follows it; cleared clusters stay cleared beyond its end. */
  lemma FileAfterWrite(a: Volume, ca: seq<nat>, mid: Volume, v: Volume, cb: seq<nat>, n: nat, bpc: nat, offset: nat,
                       src: seq<Byte>, size: nat, first: nat, size': nat, first': nat, dirCluster: nat, at: nat)
    requires Writing(a, ca, mid, cb, n, bpc, offset, src) && Patches(mid, v, dirCluster, at, size', first') && src != []
    requires Placed(a, n, bpc, first, ca, size, dirCluster, at) && Placed(v, n, bpc, first', cb, size', dirCluster, at)
    requires size' == Larger(size, offset + |src|)
    ensures Inside(a, ca) && Inside(v, cb) && size <= |Content(a.data, ca)| && size' <= |Content(v.data, cb)|
    ensures Content(v.data, cb)[..size'] ==
              Overlay(Content(a.data, ca)[..size], Content(a.data, ca)[size..], offset, src)
    ensures AllZero(Content(a.data, ca)[size..]) ==> AllZero(Content(v.data, cb)[size'..])
  {
    hide Content, Times, Placed, Writing, Patches;
    FileFits(a, n, bpc, first, ca, size, dirCluster, at);
    FileFits(v, n, bpc, first', cb, size', dirCluster, at);
    PatchedContent(mid, v, n, bpc, first', cb, size', dirCluster, at);
    var c, c0 := Content(v.data, cb), Content(a.data, ca);
    forall i: nat | i < |c| ensures c[i] == OverlayByte(c0[..size], c0[size..], offset, src, i) {
      ByteAfterWrite(a, ca, mid, cb, n, bpc, offset, src, i);
    }
    assert c[..size'] == Overlay(c0[..size], c0[size..], offset, src);
  }

  /** All clusters of the chain are on the volume. */
  predicate Inside(v: Volume, chain: seq<nat>)
  {
    forall i :: 0 <= i < |chain| ==> chain[i] < |v.data|
  }

  lemma PatchedContent(mid: Volume, v: Volume, n: nat, bpc: nat, first: nat, chain: seq<nat>, size: nat,
                       dirCluster: nat, at: nat)
    requires Patches(mid, v, dirCluster, at, size, first) && Placed(v, n, bpc, first, chain, size, dirCluster, at)
    ensures Inside(mid, chain) && Inside(v, chain) && Content(v.data, chain) == Content(mid.data, chain)
  {
    hide Content, DirPatched;
    ContentFrame(mid.data, v.data, chain);
  }

  /** A write past the end leaves a gap of zeroes exactly when the chain held zeroes there before: the driver clears
      clusters it allocates, and nothing else. */
  lemma GapIsZeroExactly(a: Volume, ca: seq<nat>, b: Volume, cb: seq<nat>, n: nat, bpc: nat, offset: nat,
                         src: seq<Byte>, size: nat)
    requires Writing(a, ca, b, cb, n, bpc, offset, src)
    ensures ZeroBetween(Content(b.data, cb), size, offset) <==> ZeroBetween(Content(a.data, ca), size, offset)
  {
    hide Content, Times;
    var c, c0 := Content(b.data, cb), Content(a.data, ca);
    assert |c| == |Padded(a, ca, |cb|, bpc)| >= |c0|;
    forall i | size <= i < offset && i < |c| ensures c[i] == if i < |c0| then c0[i] else 0 {
      ByteAfterWrite(a, ca, b, cb, n, bpc, offset, src, i);
    }
  }

  /** Growing a file without data, as a write that fails on a full volume does, changes no byte of it, and adds
      zeroes. */
  lemma FailedWriteKeepsFile(a: Volume, ca: seq<nat>, b: Volume, cb: seq<nat>, n: nat, bpc: nat, size: nat)
    requires Writing(a, ca, b, cb, n, bpc, 0, []) && size <= |Content(a.data, ca)|
    ensures size <= |Content(b.data, cb)| && Content(b.data, cb)[..size] == Content(a.data, ca)[..size]
    ensures AllZero(Content(a.data, ca)[size..]) ==> AllZero(Content(b.data, cb)[size..])
  {
    hide Content, Times;
    var c, c0 := Content(b.data, cb), Content(a.data, ca);
    assert |c| == |Padded(a, ca, |cb|, bpc)| >= |c0|;
    forall i: nat | i < |c|
      ensures c[i] == if i < |c0| then c0[i] else 0
    {
      ByteAfterWrite(a, ca, b, cb, n, bpc, 0, [], i);
    }
    forall i | 0 <= i < |c| - size && AllZero(c0[size..]) ensures c[size..][i] == 0 {
      assert c[size..][i] == c[size + i];
      if size + i < |c0| { assert c0[size..][i] == c0[size + i]; }
    }
  }

  lemma OtherCluster(a: Volume, ca: seq<nat>, cb: seq<nat>, other: seq<nat>, i: nat)
    requires IsChain(a.fat, other) && Disjoint(ca, other) && i < |other| && ca <= cb && |a.fat| < EOC_MIN
    requires forall j :: |ca| <= j < |cb| ==> 2 <= cb[j] < |a.fat| && a.fat[cb[j]] == 0
    ensures other[i] !in cb
  {
    assert a.fat[other[i]] != 0 by { if i < |other| - 1 { assert a.fat[other[i]] == other[i + 1]; } }
    forall j | 0 <= j < |cb| ensures cb[j] != other[i] { if j < |ca| { assert cb[j] == ca[j]; } }
  }

  // ---------------------------------------------------------------- the FAT over runs

  /** Writing keeps the FAT a partition into chains: the file's chain grew, the others are what they were. */
  lemma PartitionAfterWrite(a: Volume, ca: seq<nat>, b: Volume, cb: seq<nat>, n: nat, bpc: nat, offset: nat,
                            src: seq<Byte>, chains: seq<seq<nat>>, k: nat)
    requires Writing(a, ca, b, cb, n, bpc, offset, src) && Partition(a.fat, chains) && k < |chains| && chains[k] == ca
             && IsChain(b.fat, cb)
    ensures Partition(b.fat, chains[k := cb])
  {
    hide Content, Times, Shows, IsChain, InSome;
    var chains' := chains[k := cb];
    forall m | 0 <= m < |chains| && m != k
      ensures IsChain(b.fat, chains[m]) && Disjoint(cb, chains[m]) && Disjoint(chains[m], cb)
    {
      DisjointSym(chains, k, m);
      OtherChainKept(a, ca, b, cb, chains[m]);
    }
    forall m, m' | 0 <= m < m' < |chains'| ensures Disjoint(chains'[m], chains'[m']) { }
    forall d | 2 <= d < |b.fat| ensures b.fat[d] != 0 <==> InSome(chains', d) {
      MemberGrown(a, b, chains, k, cb, d);
    }
  }

  /** The first write to an empty file adds a chain of its own. */
  lemma PartitionAfterFirstWrite(a: Volume, b: Volume, cb: seq<nat>, n: nat, bpc: nat, offset: nat, src: seq<Byte>,
                                 chains: seq<seq<nat>>)
    requires Writing(a, [], b, cb, n, bpc, offset, src) && Partition(a.fat, chains) && IsChain(b.fat, cb)
    ensures Partition(b.fat, chains + [cb])
  {
    hide Content, Times, Shows, IsChain, InSome;
    var chains' := chains + [cb];
    forall m | 0 <= m < |chains| ensures IsChain(b.fat, chains[m]) && Disjoint(chains[m], cb) {
      OtherChainKept(a, [], b, cb, chains[m]);
    }
    forall m, m' | 0 <= m < m' < |chains'| ensures Disjoint(chains'[m], chains'[m']) { }
    forall d | 2 <= d < |b.fat| ensures b.fat[d] != 0 <==> InSome(chains', d) {
      MemberJoined(a, b, chains, cb, d);
    }
  }

  lemma MemberJoined(a: Volume, b: Volume, chains: seq<seq<nat>>, cb: seq<nat>, d: nat)
    requires Grew(a, [], b, cb) && IsChain(b.fat, cb) && 2 <= d < |a.fat| && (a.fat[d] != 0 <==> InSome(chains, d))
    ensures b.fat[d] != 0 <==> InSome(chains + [cb], d)
  {
    var chains' := chains + [cb];
    if d in cb {
      ChainUsed(b.fat, cb, d);
      assert d in chains'[|chains|];
    } else {
      if m :| 0 <= m < |chains| && d in chains[m] { assert d in chains'[m]; }
      if m :| 0 <= m < |chains'| && d in chains'[m] { assert m < |chains|; assert d in chains[m]; }
    }
  }

  lemma OtherChainKept(a: Volume, ca: seq<nat>, b: Volume, cb: seq<nat>, other: seq<nat>)
    requires Grew(a, ca, b, cb) && IsChain(a.fat, other) && Disjoint(ca, other) && |a.fat| < EOC_MIN
    ensures IsChain(b.fat, other) && Disjoint(cb, other) && Disjoint(other, cb)
  {
    forall i | 0 <= i < |other| ensures other[i] !in cb { OtherCluster(a, ca, cb, other, i); }
    ChainFrame(a.fat, b.fat, other);
  }

  lemma ChainUsed(fat: seq<nat>, chain: seq<nat>, d: nat)
    requires IsChain(fat, chain) && d in chain
    ensures 2 <= d < |fat| && fat[d] != 0
  {
    var i :| 0 <= i < |chain| && chain[i] == d;
    if i < |chain| - 1 { assert fat[chain[i]] == chain[i + 1]; }
  }

  lemma MemberGrown(a: Volume, b: Volume, chains: seq<seq<nat>>, k: nat, cb: seq<nat>, d: nat)
    requires k < |chains| && Grew(a, chains[k], b, cb) && IsChain(b.fat, cb) && 2 <= d < |a.fat|
    requires a.fat[d] != 0 <==> InSome(chains, d)
    ensures b.fat[d] != 0 <==> InSome(chains[k := cb], d)
  {
    var chains' := chains[k := cb];
    if d in cb {
      ChainUsed(b.fat, cb, d);
      assert d in chains'[k];
    } else {
      assert forall i :: 0 <= i < |chains[k]| ==> chains[k][i] == cb[i];
      if m :| 0 <= m < |chains| && d in chains[m] { assert d in chains'[m]; }
      if m :| 0 <= m < |chains'| && d in chains'[m] { assert d in chains[m]; }
    }
  }

  // ---------------------------------------------------------------- a round trip

  /** Write, then read the same place: the bytes accepted come back. */
  method WriteThenRead(node: Fat32VNode, offset: nat, src: seq<Byte>) returns (written: int, bytes: seq<Byte>)
    requires node.Valid() && node.isFile && src != [] && offset + |src| < SIZE_LIMIT
    modifies node`firstCluster, node`fileSize, node`chain, node.fs.dev
    ensures node.Valid() && (written == -1 || 0 < written <= |src|)
    ensures written > 0 ==> bytes == src[..written]
  {
    hide Writing, Patches, Placed, Content, Full;
    ghost var a, ca := Vol(node.fs), node.chain;
    bytes := [];
    ghost var mid;
    ghost var size := node.fileSize;
    SizeBelow(node);
    written, mid := node.Write(offset, src);
    if written > 0 {
      InPlaceExactly(offset, written, size, node.fs.g.ClusterBytes());
      var n;
      n, bytes := node.Read(offset, written);
      WrittenWindow(a, ca, mid, Vol(node.fs), node.chain, node.fs.g.total + 2, node.fs.g.ClusterBytes(), offset,
        src[..written],
                    node.firstCluster, node.fileSize, node.dirCluster, node.dirOffset);
    }
  }

  lemma SizeBelow(node: Fat32VNode)
    requires node.Valid() && node.isFile
    ensures node.fileSize < SIZE_LIMIT && node.fs.g.ClusterBytes() > 0
  {
  }

  lemma WrittenWindow(a: Volume, ca: seq<nat>, mid: Volume, v: Volume, cb: seq<nat>, n: nat, bpc: nat, offset: nat,
                      src: seq<Byte>, first: nat, size: nat, dirCluster: nat, at: nat)
    requires Writing(a, ca, mid, cb, n, bpc, offset, src) && Patches(mid, v, dirCluster, at, size, first) && src != []
    requires Placed(v, n, bpc, first, cb, size, dirCluster, at) && offset + |src| <= size
    ensures size <= |Content(v.data, cb)| && Window(Content(v.data, cb)[..size], offset, |src|) == src
  {
    hide Content, Times, Writing;
    FileFits(v, n, bpc, first, cb, size, dirCluster, at);
    WriteReadsBack(a, ca, mid, cb, n, bpc, offset, src);
    ContentFrame(mid.data, v.data, cb);
    var c := Content(v.data, cb);
    assert c[..size][offset..offset + |src|] == c[offset..offset + |src|];
  }
}
