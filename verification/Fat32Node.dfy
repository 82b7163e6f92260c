/** kernel/fs/fat32.cpp, Fat32VNode: the file operations themselves. */
module Fat32Nodes {
  import opened Ram
  import opened LittleEndian
  import opened FatDisk
  import opened FatChains
  import opened Fat32
  import opened FileContent
  import opened Fat32Files

  const SIZE_LIMIT: int := 0x1_0000_0000
  const TWO64: int := 0x1_0000_0000_0000_0000
  const DIR_ENTRY: nat := 32

  // ---------------------------------------------------------------- directory entries

  /** Size and first cluster recorded in the entry at `at`. */
  function RecordedSize(s: seq<Byte>, at: nat): int
    requires at + DIR_ENTRY <= |s|
  {
    WordAt(s, at + 28)
  }

  function RecordedFirst(s: seq<Byte>, at: nat): int
    requires at + DIR_ENTRY <= |s|
  {
    HalfAt(s, at + 26) + 0x1_0000 * HalfAt(s, at + 20)
  }

  /** The directory cluster after `update_dir_entry`. */
  function DirPatched(s: seq<Byte>, at: nat, size: int, first: int): (r: seq<Byte>)
    requires at + DIR_ENTRY <= |s| && 0 <= size < SIZE_LIMIT && 0 <= first < SIZE_LIMIT
    ensures |r| == |s|
  {
    PutHalf(PutHalf(PutWord(s, at + 28, size), at + 26, first % 0x1_0000), at + 20, first / 0x1_0000)
  }

  /** The entry then records the new size and first cluster, and no byte of another entry or field changed. */
  lemma EntryRecorded(s: seq<Byte>, at: nat, size: int, first: int)
    requires at + DIR_ENTRY <= |s| && 0 <= size < SIZE_LIMIT && 0 <= first < SIZE_LIMIT
    ensures var r := DirPatched(s, at, size, first);
            && RecordedSize(r, at) == size && RecordedFirst(r, at) == first
            && forall k :: 0 <= k < |s| && !(at + 20 <= k < at + 22) && !(at + 26 <= k < at + 32) ==> r[k] == s[k]
  {
    var w := PutWord(s, at + 28, size);
    PutWordAt(s, at + 28, size, at + 28);
    forall k: nat | k < |s| && !(at + 28 <= k < at + 32) ensures w[k] == s[k] { PutWordElsewhere(s, at + 28, size, k); }
    var h := PutHalf(w, at + 26, first % 0x1_0000);
    var r := PutHalf(h, at + 20, first / 0x1_0000);
    assert HalfAt(r, at + 26) == HalfAt(h, at + 26);
    assert WordAt(r, at + 28) == WordAt(w, at + 28);
  }

  // ---------------------------------------------------------------- what a read returns

  /** `count` bytes at `offset`, as far as the file reaches. */
  function Window(file: seq<Byte>, offset: nat, count: nat): seq<Byte>
  {
    if offset >= |file| then [] else if offset + count > |file| then file[offset..] else file[offset..offset + count]
  }

  lemma TailSlice(data: seq<seq<Byte>>, chain: seq<nat>, bpc: nat, k: nat, at: nat, chunk: nat)
    requires Sizes(data, chain, bpc) && k < |chain| && at + chunk <= bpc
    ensures Times(k, bpc) + at + chunk <= |Content(data, chain)|
    ensures data[chain[k]][at..at + chunk] == Content(data, chain)[Times(k, bpc) + at..Times(k, bpc) + at + chunk]
  {
    hide Times, Content;
    ClusterSlice(data, chain, bpc, k);
    var c, s := Content(data, chain), Times(k, bpc);
    SubSlice(c, s, bpc, at, chunk);
  }

  lemma SubSlice(c: seq<Byte>, s: nat, n: nat, at: nat, m: nat)
    requires s + n <= |c| && at + m <= n
    ensures c[s..s + n][at..at + m] == c[s + at..s + at + m]
  {
    var a, b := c[s..s + n][at..at + m], c[s + at..s + at + m];
    forall k | 0 <= k < m ensures a[k] == b[k] { assert a[k] == c[s..s + n][at + k] == c[s + at + k]; }
  }

  /** Cluster `offset / bpc` exists for an offset inside the chain. */
  lemma Position(offset: nat, bpc: nat, clusters: nat)
    requires 0 < bpc && offset < Times(clusters, bpc)
    ensures 0 <= offset / bpc < clusters && offset == Times(offset / bpc, bpc) + offset % bpc
  {
    if offset / bpc >= clusters { TimesMonotone(clusters, offset / bpc, bpc); }
    Euclid(offset, bpc);
  }

  lemma Euclid(x: nat, n: nat)
    requires n > 0
    ensures x == Times(x / n, n) + x % n && 0 <= x % n < n && x / n >= 0
  {
  }

  method SeekForRead(fs: Fat32Filesystem, first: nat, target: nat, ghost chain: seq<nat>) returns (curr: nat, hops: nat)
    requires fs.Valid() && StartsAt(fs.Fat(), chain, first) && target < |chain|
    ensures curr == chain[target] && hops == target
  {
    hide Fat32Filesystem.Valid, IsChain, FatOf, Geometry.Fits;
    FitsNow(fs);
    Sized(fs);
    StartIsFirst(fs.Fat(), chain, first);
    curr, hops := first, 0;
    var i := 0;
    while i < target && 2 <= curr < EOC_MIN
      invariant 0 <= i <= target && hops == i && curr == chain[i]
      decreases target - i
    {
      LinkAt(fs.Fat(), chain, i);
      hops := hops + 1;
      if hops > fs.g.total {
        curr := EOC_MIN;
        break;
      }
      curr := fs.ReadFatEntry(curr);
      i := i + 1;
    }
    LinkAt(fs.Fat(), chain, i);
  }

  function Smaller(a: int, b: int): int
  {
    if a < b then a else b
  }

  /** The read loop: the bytes from `offset` on, `want` of them as far as the chain goes; the hop count does not cut it
      short. */
  method ReadChunks(fs: Fat32Filesystem, start: nat, startAt: nat, want: nat, startHops: nat, ghost from: nat,
                    ghost chain: seq<nat>, ghost offset: nat)
    returns (bytes: seq<Byte>)
    requires fs.Valid() && IsChain(fs.Fat(), chain) && from < |chain| && start == chain[from] && startHops == from
    requires startAt < fs.g.ClusterBytes() && offset == Times(from, fs.g.ClusterBytes()) + startAt
    requires Sizes(fs.Data(), chain, fs.g.ClusterBytes()) && offset <= |Content(fs.Data(), chain)|
    ensures bytes == Content(fs.Data(), chain)[offset..Smaller(offset + want, |Content(fs.Data(), chain)|)]
  {
    hide Fat32Filesystem.Valid, IsChain, FatOf, DataOf, Geometry.Fits, Times, Content;
    FitsNow(fs);
    Sized(fs);
    var bpc := fs.g.ClusterBytes();
    ghost var whole := Content(fs.Data(), chain);
    ContentLength(fs.Data(), chain, bpc);
    var curr: nat, at: nat, hops: nat, left: nat := start, startAt, startHops, want;
    ghost var k: nat := from;
    bytes := [];
    while left > 0 && 2 <= curr < EOC_MIN
      invariant 0 <= left <= want && |bytes| == want - left && offset + |bytes| <= |whole|
                && bytes == whole[offset..offset + |bytes|]
      invariant left > 0 && k < |chain| ==>
                  curr == chain[k] && at < bpc && hops == k && offset + |bytes| == Times(k, bpc) + at
      invariant left > 0 && k >= |chain| ==> curr >= EOC_MIN && offset + |bytes| == |whole|
      decreases left
    {
      LinkAt(fs.Fat(), chain, k);
      var buf := fs.ReadCluster(curr);
      var chunk := if bpc - at > left then left else bpc - at;
      TailSlice(fs.Data(), chain, bpc, k, at, chunk);
      ghost var done := |bytes|;
      bytes := bytes + buf[at..at + chunk];
      assert bytes == whole[offset..offset + done + chunk];
      left := left - chunk;
      TimesStep(k, bpc);
      at := 0;
      hops := hops + 1;
      if hops > fs.g.total { break; }
      curr := fs.ReadFatEntry(curr);
      k := k + 1;
    }
    if left > 0 && k < |chain| { LinkAt(fs.Fat(), chain, k); }
  }

  // ---------------------------------------------------------------- the vnode

  /** A file's place in the volume: its chain holds its size, and its directory entry lies outside the chain. */
  ghost predicate Placed(v: Volume, n: nat, bpc: nat, first: nat, chain: seq<nat>, size: int, dirCluster: nat,
                         dirOffset: nat)
  {
    && Shaped(v, n, bpc) && Leads(v.fat, first, chain) && 0 <= size <= Times(|chain|, bpc) && size < SIZE_LIMIT
    && 2 <= dirCluster < n && dirCluster !in chain && v.fat[dirCluster] != 0 && dirOffset + DIR_ENTRY <= bpc
  }

  class Fat32VNode {
    const fs: Fat32Filesystem
    const isFile: bool
    const dirCluster: nat
    const dirOffset: nat
    var firstCluster: nat
    var fileSize: nat
    ghost var chain: seq<nat>

    constructor (fs: Fat32Filesystem, isFile: bool, firstCluster: nat, fileSize: nat, dirCluster: nat, dirOffset: nat,
                 ghost chain: seq<nat>)
      ensures this.fs == fs && this.isFile == isFile && this.firstCluster == firstCluster && this.fileSize == fileSize
      ensures this.dirCluster == dirCluster && this.dirOffset == dirOffset && this.chain == chain
    {
      this.fs, this.isFile, this.dirCluster, this.dirOffset := fs, isFile, dirCluster, dirOffset;
      this.firstCluster, this.fileSize, this.chain := firstCluster, fileSize, chain;
    }

    ghost predicate Valid()
      reads this, fs, fs.dev
    {
      && fs.Valid()
      && (isFile ==>
           Placed(Vol(fs), fs.g.total + 2, fs.g.ClusterBytes(), firstCluster, chain, fileSize, dirCluster, dirOffset))
    }

    /** The file's bytes. */
    ghost function File(): seq<Byte>
      reads this, fs, fs.dev
      requires Valid() && isFile
    {
      FileFits(Vol(fs), fs.g.total + 2, fs.g.ClusterBytes(), firstCluster, chain, fileSize, dirCluster, dirOffset);
      Content(fs.Data(), chain)[..fileSize]
    }

    /** `read`: exactly the bytes of the file in the window asked for, unless the window wraps round 2^64: then the rest
        of the chain, past the file's size. */
    method Read(offset: nat, count: nat) returns (n: int, bytes: seq<Byte>)
      requires Valid() && offset < TWO64 && count < TWO64
      ensures !isFile ==> n == -1
      ensures isFile ==> n == |bytes|
      ensures isFile && (offset + count < TWO64 || offset >= fileSize) ==> bytes == Window(File(), offset, count)
      ensures isFile && offset + count >= TWO64 && offset < fileSize ==>
                RestOfChain(Vol(fs), chain, offset, count, bytes)
    {
      hide CopiesAgree, FatOf, DataOf, Content, Times, Placed, Leads, Geometry.Fits;
      if !isFile { return -1, []; }
      FileFits(Vol(fs), fs.g.total + 2, fs.g.ClusterBytes(), firstCluster, chain, fileSize, dirCluster, dirOffset);
      if offset >= fileSize || count == 0 { return 0, []; }
      var bpc := fs.g.ClusterBytes();
      var want := if (offset + count) % TWO64 > fileSize then fileSize - offset else count;
      WrappedEnd(offset, count);
      ChainLeads(Vol(fs), fs.g.total + 2, bpc, firstCluster, chain, fileSize, dirCluster, dirOffset, offset);
      Euclid(offset, bpc);
      var curr, hops := SeekForRead(fs, firstCluster, offset / bpc, chain);
      bytes := ReadChunks(fs, curr, offset % bpc, want, hops, offset / bpc, chain, offset);
      n := |bytes|;
      ghost var c := Content(fs.Data(), chain);
      if offset + count < TWO64 {
        assert c[offset..offset + want] == c[..fileSize][offset..offset + want];
      } else {
        ChainInside(Vol(fs), fs.g.total + 2, bpc, firstCluster, chain, fileSize, dirCluster, dirOffset);
      }
    }

    /** `update_dir_entry`. */
    method UpdateDirEntry(newSize: nat, newFirst: nat)
      requires fs.Valid() && newSize < SIZE_LIMIT && newFirst < SIZE_LIMIT && dirCluster < fs.g.total + 2
               && dirOffset + DIR_ENTRY <= fs.g.ClusterBytes()
      modifies this`fileSize, this`firstCluster, fs.dev
      ensures fs.Valid()
      ensures dirCluster < 2 ==>
                fileSize == old(fileSize) && firstCluster == old(firstCluster) && Vol(fs) == old(Vol(fs))
      ensures dirCluster >= 2 ==> fileSize == newSize && firstCluster == newFirst && fs.Fat() == old(fs.Fat())
      ensures dirCluster >= 2 ==> dirCluster < |old(fs.Data())| && |old(fs.Data())[dirCluster]| == fs.g.ClusterBytes()
      ensures dirCluster >= 2 ==>
                fs.Data() ==
                  old(fs.Data())[dirCluster := DirPatched(old(fs.Data())[dirCluster], dirOffset, newSize, newFirst)]
    {
      hide CopiesAgree, DirPatched;
      if dirCluster < 2 { return; }
      fileSize, firstCluster := newSize, newFirst;
      var buf := fs.ReadCluster(dirCluster);
      fs.WriteCluster(dirCluster, DirPatched(buf, dirOffset, newSize, newFirst));
    }

    /** A cluster for a file that has none. */
    method EnsureFirst(ghost a: Volume, ghost ca: seq<nat>) returns (ok: bool)
      requires fs.Valid() && Leads(fs.Fat(), firstCluster, chain) && a == Vol(fs) && ca == chain
      modifies this`firstCluster, this`chain, fs.dev
      ensures fs.Valid() && Leads(fs.Fat(), firstCluster, chain)
              && Writing(a, ca, Vol(fs), chain, fs.g.total + 2, fs.g.ClusterBytes(), 0, [])
      ensures ok ==> StartsAt(fs.Fat(), chain, firstCluster) && 2 <= firstCluster < SIZE_LIMIT
      ensures !ok ==> Full(fs.Fat()) && firstCluster == 0 && chain == ca == [] && Vol(fs) == a
      ensures old(firstCluster) >= 2 ==> firstCluster == old(firstCluster) && chain == ca
      ensures old(firstCluster) < 2 && ok ==> |chain| == 1 && FreeClusters(a.fat) != {}
    {
      hide CopiesAgree, FatOf, DataOf, Geometry.Fits, Writing, IsChain, Taken;
      FitsNow(fs);
      VolShaped(fs);
      Sized(fs);
      WritingStarts(a, firstCluster, chain, fs.g.total + 2, fs.g.ClusterBytes());
      ok := true;
      if firstCluster < 2 {
        var c := fs.AllocCluster(0);
        firstCluster := c;
        FitsNow(fs);
        if c < 2 { return false; }
        assert c in FreeClusters(a.fat);
        FirstAppended(a, fs.g.total + 2, fs.g.ClusterBytes(), c);
        chain := [c];
      }
      StartInTable(fs.Fat(), chain, firstCluster);
    }

    /** `write`: on success the first `n` bytes are laid over the file where the offset lands, the size follows in 32
        bits, and the directory entry records it; -1 or a short count only on a full volume, and then at most cleared
        clusters were added. The file stays in order exactly when its chain holds the size recorded. */
    method Write(offset: nat, src: seq<Byte>) returns (n: int, ghost mid: Volume)
      requires Valid() && offset < TWO64
      modifies this`firstCluster, this`fileSize, this`chain, fs.dev
      ensures fs.Valid()
              && (Valid() <==> !isFile || src == [] || n == -1 || fileSize <= Times(|chain|, fs.g.ClusterBytes()))
      ensures offset + |src| < SIZE_LIMIT ==> Valid()
      ensures !isFile ==> n == -1
      ensures isFile && src == [] ==> n == 0
      ensures !isFile || src == [] ==>
                Vol(fs) == old(Vol(fs)) && chain == old(chain) && fileSize == old(fileSize)
                && firstCluster == old(firstCluster)
      ensures isFile && src != [] ==> (n == -1 || 0 < n <= |src|) && firstCluster != 1
      ensures isFile && src != [] ==>
                Decided(old(Vol(fs)), old(chain), chain, n, fs.g.ClusterBytes(), Landed(offset, fs.g.ClusterBytes()),
                  |src|)
      ensures isFile && src != [] && n < |src| ==> Full(fs.Fat())
      ensures isFile && src != [] && n > 0 ==> Recorded(Vol(fs), dirCluster, dirOffset, fileSize, firstCluster)
      ensures isFile && old(Recorded(Vol(fs), dirCluster, dirOffset, fileSize, firstCluster)) ==>
                (Recorded(Vol(fs), dirCluster, dirOffset, fileSize, firstCluster) <==>
                  !(src != []
                  && LosesFirst(old(firstCluster), |FreeClusters(old(fs.Fat()))|, fs.g.ClusterBytes(),
                       Landed(offset, fs.g.ClusterBytes()))))
      ensures isFile && src != [] && n == -1 ==>
                fileSize == old(fileSize)
                && Writing(old(Vol(fs)), old(chain), Vol(fs), chain, fs.g.total + 2, fs.g.ClusterBytes(), 0, [])
      ensures isFile && src != [] && n > 0 ==>
                && Writing(old(Vol(fs)), old(chain), mid, chain, fs.g.total + 2, fs.g.ClusterBytes(),
                     Landed(offset, fs.g.ClusterBytes()), src[..n])
                && fileSize == NewSize(old(fileSize), offset + n)
                && Patches(mid, Vol(fs), dirCluster, dirOffset, fileSize, firstCluster)
    {
      hide CopiesAgree, FatOf, DataOf, Geometry.Fits, Writing, Placed, Full, Patches, Landed, NewSize, Times, Decided,
           Recorded, LosesFirst, FreeClusters;
      mid := Vol(fs);
      if !isFile { return -1, mid; }
      if src == [] { return 0, mid; }
      n, mid := WriteFile(offset, src);
    }

    method WriteFile(offset: nat, src: seq<Byte>) returns (n: int, ghost mid: Volume)
      requires Valid() && isFile && src != [] && offset < TWO64
      modifies this`firstCluster, this`fileSize, this`chain, fs.dev
      ensures fs.Valid() && (n == -1 || 0 < n <= |src|) && (n < |src| ==> Full(fs.Fat())) && firstCluster != 1
      ensures Valid() <==> n == -1 || fileSize <= Times(|chain|, fs.g.ClusterBytes())
      ensures offset + |src| < SIZE_LIMIT ==> Valid()
      ensures Decided(old(Vol(fs)), old(chain), chain, n, fs.g.ClusterBytes(), Landed(offset, fs.g.ClusterBytes()),
                |src|)
      ensures n > 0 ==> Recorded(Vol(fs), dirCluster, dirOffset, fileSize, firstCluster)
      ensures old(Recorded(Vol(fs), dirCluster, dirOffset, fileSize, firstCluster)) ==>
                (Recorded(Vol(fs), dirCluster, dirOffset, fileSize, firstCluster) <==>
                  !LosesFirst(old(firstCluster), |FreeClusters(old(fs.Fat()))|, fs.g.ClusterBytes(),
                    Landed(offset, fs.g.ClusterBytes())))
      ensures n == -1 ==>
                fileSize == old(fileSize)
                && Writing(old(Vol(fs)), old(chain), Vol(fs), chain, fs.g.total + 2, fs.g.ClusterBytes(), 0, [])
      ensures n > 0 ==>
                && Writing(old(Vol(fs)), old(chain), mid, chain, fs.g.total + 2, fs.g.ClusterBytes(),
                     Landed(offset, fs.g.ClusterBytes()), src[..n])
                && fileSize == NewSize(old(fileSize), offset + n)
                && Patches(mid, Vol(fs), dirCluster, dirOffset, fileSize, firstCluster)
    {
      hide CopiesAgree, FatOf, DataOf, Geometry.Fits, Writing, IsChain, Placed, Full, Leads, Patches, Times, NewSize,
           Decided, Recorded, LosesFirst, FreeClusters;
      mid := Vol(fs);
      ghost var a, ca, N, first, size := Vol(fs), chain, fs.g.total + 2, firstCluster, fileSize;
      var bpc := fs.g.ClusterBytes();
      PlacedParts(a, N, bpc, firstCluster, chain, fileSize, dirCluster, dirOffset);
      ghost var at := Landed(offset, bpc);
      var ok := EnsureFirst(a, ca);
      PlacedAfter(a, ca, Vol(fs), chain, N, bpc, 0, [], first, firstCluster, size, dirCluster, dirOffset);
      if !ok {
        RefusedOutright(a, ca, first, size, N, bpc, at, |src|, dirCluster, dirOffset);
        return -1, mid;
      }
      Euclid(offset, bpc);
      var curr;
      var target := offset / bpc % SIZE_LIMIT;
      ok, curr, chain := SeekForWrite(fs, firstCluster, target, chain, a, ca);
      LeadsFrom(fs.Fat(), firstCluster, chain);
      PlacedAfter(a, ca, Vol(fs), chain, N, bpc, 0, [], first, firstCluster, size, dirCluster, dirOffset);
      if !ok {
        RefusedInSeek(a, ca, first, Vol(fs), chain, firstCluster, size, N, bpc, target, offset % bpc, |src|, dirCluster,
          dirOffset);
        return -1, mid;
      }
      WritingAt(a, ca, Vol(fs), chain, N, bpc, target, offset % bpc);
      ghost var sought := chain;
      n, mid := WriteAndRecord(offset, src, curr, offset % bpc, target, a, ca, first);
      WriteAccepted(a, ca, first, mid, sought, chain, firstCluster, size, N, bpc, target, offset % bpc, src, n,
        dirCluster, dirOffset);
      PatchesRecord(mid, Vol(fs), dirCluster, dirOffset, fileSize, firstCluster);
      if offset + |src| < SIZE_LIMIT {
        InPlaceExactly(offset, n, size, bpc);
        WrittenFits(a, ca, mid, chain, N, bpc, Landed(offset, bpc), src[..n], size);
      }
    }

    /** The write loop and the directory entry. */
    method WriteAndRecord(offset: nat, src: seq<Byte>, curr: nat, at: nat, ghost k: nat, ghost a: Volume,
                          ghost ca: seq<nat>, ghost first: nat) returns (n: nat, ghost mid: Volume)
      requires fs.Valid() && src != [] && offset < TWO64 && fs.g.ClusterBytes() > 0 && firstCluster < SIZE_LIMIT
      requires Placed(a, fs.g.total + 2, fs.g.ClusterBytes(), first, ca, fileSize, dirCluster, dirOffset)
               && StartsAt(fs.Fat(), chain, firstCluster)
      requires k < |chain| && curr == chain[k] && at < fs.g.ClusterBytes()
      requires Writing(a, ca, Vol(fs), chain, fs.g.total + 2, fs.g.ClusterBytes(), Times(k, fs.g.ClusterBytes()) + at,
                 [])
      modifies this`firstCluster, this`fileSize, this`chain, fs.dev
      ensures fs.Valid() && 0 < n <= |src| && StartsAt(fs.Fat(), chain, firstCluster)
              && firstCluster == old(firstCluster) && mid.fat == fs.Fat()
      ensures n < |src| ==>
                Full(fs.Fat()) && Times(k, fs.g.ClusterBytes()) + at + n == Times(|chain|, fs.g.ClusterBytes())
      ensures chain == old(chain)
              || (|chain| > |old(chain)|
              && Times(|chain| - 1, fs.g.ClusterBytes()) < Times(k, fs.g.ClusterBytes()) + at + n)
      ensures Placed(Vol(fs), fs.g.total + 2, fs.g.ClusterBytes(), firstCluster, chain, fileSize, dirCluster, dirOffset)
              <==> fileSize <= Times(|chain|, fs.g.ClusterBytes())
      ensures Writing(a, ca, mid, chain, fs.g.total + 2, fs.g.ClusterBytes(), Times(k, fs.g.ClusterBytes()) + at,
                src[..n])
      ensures fileSize == NewSize(old(fileSize), offset + n)
              && Patches(mid, Vol(fs), dirCluster, dirOffset, fileSize, firstCluster)
    {
      hide CopiesAgree, FatOf, DataOf, Geometry.Fits, Writing, IsChain, Placed, Full, Leads, Times, DirPatched;
      ghost var N, size := fs.g.total + 2, fileSize;
      var bpc := fs.g.ClusterBytes();
      PlacedParts(a, N, bpc, first, ca, fileSize, dirCluster, dirOffset);
      n, chain := WriteChunks(fs, firstCluster, curr, at, src, k, chain, a, ca, Times(k, bpc) + at);
      mid := Vol(fs);
      LeadsFrom(fs.Fat(), firstCluster, chain);
      var end := (offset + n) % TWO64;
      var newSize := if end > fileSize then end % SIZE_LIMIT else fileSize;
      PlacedAfter(a, ca, mid, chain, N, bpc, Times(k, bpc) + at, src[..n], first, firstCluster, size, dirCluster,
        dirOffset);
      UpdateDirEntry(newSize, firstCluster);
      ResizedPlaced(mid, Vol(fs), N, bpc, firstCluster, chain, size, newSize, dirCluster, dirOffset);
    }

    /** `truncate` to nothing: the chain's clusters become free and the directory entry records an empty file. */
    method TruncateToZero() returns (status: int)
      requires Valid()
      modifies this`firstCluster, this`fileSize, this`chain, fs.dev
      ensures Valid()
      ensures !isFile ==> status == -1 && Vol(fs) == old(Vol(fs)) && chain == old(chain) && fileSize == old(fileSize)
      ensures isFile ==> status == 0 && fileSize == 0 && chain == [] && File() == []
      ensures isFile ==> firstCluster == if old(firstCluster) >= 2 then 0 else old(firstCluster)
      ensures isFile ==>
                Patches(Volume(Freed(old(fs.Fat()), old(chain)), old(fs.Data())), Vol(fs), dirCluster, dirOffset, 0,
                  firstCluster)
      ensures isFile ==> Recorded(Vol(fs), dirCluster, dirOffset, fileSize, firstCluster)
    {
      hide CopiesAgree, FatOf, DataOf, Geometry.Fits, IsChain, Placed, Freed, DirPatched, Recorded;
      if !isFile { return -1; }
      ghost var a, N, bpc := Vol(fs), fs.g.total + 2, fs.g.ClusterBytes();
      PlacedParts(a, N, bpc, firstCluster, chain, fileSize, dirCluster, dirOffset);
      ghost var gone := chain;
      if firstCluster >= 2 {
        fs.FreeClusterChain(firstCluster, chain);
        firstCluster := 0;
      } else {
        FreedNothing(a.fat);
      }
      chain := [];
      FreedPlaced(a, N, bpc, old(firstCluster), gone, fileSize, dirCluster, dirOffset, firstCluster);
      ghost var mid := Vol(fs);
      UpdateDirEntry(0, firstCluster);
      PatchedPlaced(mid, N, bpc, firstCluster, [], 0, dirCluster, dirOffset);
      PatchesRecord(mid, Vol(fs), dirCluster, dirOffset, 0, firstCluster);
      return 0;
    }

    /** `truncate`. A size other than zero is only recorded, in 32 bits: the file stays in order exactly when its chain
        holds that much. No byte of the chain changes, so shrinking keeps a prefix. */
    method Truncate(newSize: nat) returns (status: int)
      requires Valid() && newSize < 0x1_0000_0000_0000_0000
      modifies this`firstCluster, this`fileSize, this`chain, fs.dev
      ensures fs.Valid()
      ensures !isFile ==>
                Valid() && status == -1 && Vol(fs) == old(Vol(fs)) && chain == old(chain) && fileSize == old(fileSize)
      ensures isFile ==> status == 0 && fileSize == newSize % SIZE_LIMIT
      ensures isFile && newSize == 0 ==>
                chain == []
                && Patches(Volume(Freed(old(fs.Fat()), old(chain)), old(fs.Data())), Vol(fs), dirCluster, dirOffset, 0,
                     firstCluster)
      ensures isFile && newSize != 0 ==>
                chain == old(chain) && Patches(old(Vol(fs)), Vol(fs), dirCluster, dirOffset, fileSize, firstCluster)
      ensures isFile ==> (Valid() <==> newSize == 0 || newSize % SIZE_LIMIT <= Times(|old(chain)|, fs.g.ClusterBytes()))
      ensures isFile && newSize != 0 ==> SameBytes(old(Vol(fs)), Vol(fs), chain)
      ensures isFile ==> Recorded(Vol(fs), dirCluster, dirOffset, fileSize, firstCluster)
    {
      hide CopiesAgree, FatOf, DataOf, Geometry.Fits, IsChain, Placed, Freed, DirPatched, Times, Leads, SameBytes,
           Recorded;
      if !isFile { return -1; }
      if newSize == 0 {
        status := TruncateToZero();
        return;
      }
      ghost var a, N, bpc, size := Vol(fs), fs.g.total + 2, fs.g.ClusterBytes(), fileSize;
      PlacedParts(a, N, bpc, firstCluster, chain, fileSize, dirCluster, dirOffset);
      FirstSmall(a, N, bpc, firstCluster, chain, fileSize, dirCluster, dirOffset);
      FileFits(a, N, bpc, firstCluster, chain, fileSize, dirCluster, dirOffset);
      UpdateDirEntry(newSize % SIZE_LIMIT, firstCluster);
      ResizedPlaced(a, Vol(fs), N, bpc, firstCluster, chain, size, fileSize, dirCluster, dirOffset);
      PatchesRecord(a, Vol(fs), dirCluster, dirOffset, fileSize, firstCluster);
      return 0;
    }
  }

  /** Recording another size in the directory entry leaves the bytes of the chain alone. */
  lemma ResizedPlaced(a: Volume, v: Volume, n: nat, bpc: nat, first: nat, chain: seq<nat>, size: int, size': nat,
                      dirCluster: nat, dirOffset: nat)
    requires Placed(a, n, bpc, first, chain, size, dirCluster, dirOffset) && size' < SIZE_LIMIT && first < SIZE_LIMIT
    requires Patches(a, v, dirCluster, dirOffset, size', first)
    ensures Placed(v, n, bpc, first, chain, size', dirCluster, dirOffset) <==> size' <= Times(|chain|, bpc)
    ensures SameBytes(a, v, chain)
  {
    hide Content, DirPatched, Times;
    if size' <= Times(|chain|, bpc) {
      PatchedPlaced(a, n, bpc, first, chain, size', dirCluster, dirOffset);
    }
    ContentFrame(a.data, v.data, chain);
  }

  /** The clusters of the chain hold the same bytes. */
  ghost predicate SameBytes(a: Volume, b: Volume, chain: seq<nat>)
  {
    && (forall i :: 0 <= i < |chain| ==> chain[i] < |a.data| && chain[i] < |b.data|)
    && Content(b.data, chain) == Content(a.data, chain)
  }

  // ---------------------------------------------------------------- how a write ends

  /** Bytes accepted by a write of `want` bytes at `at`, on a chain of `clusters` with `free` clusters left on the
      volume; -1 when even all of them do not reach that far. */
  function Accepted(clusters: nat, free: nat, bpc: nat, at: nat, want: nat): int
  {
    if Times(clusters + free, bpc) <= at then -1 else Smaller(want, Times(clusters + free, bpc) - at)
  }

  /** The chain's length afterwards: what the bytes need, or every cluster there is. */
  function GrownTo(clusters: nat, free: nat, bpc: nat, at: nat, want: nat): int
    requires bpc > 0
  {
    var n := Accepted(clusters, free, bpc, at, want);
    if n == -1 then clusters + free else Larger(clusters, (at + n - 1) / bpc + 1)
  }

  ghost predicate Decided(a: Volume, ca: seq<nat>, cb: seq<nat>, n: int, bpc: nat, at: nat, want: nat)
  {
    && bpc > 0 && n == Accepted(|ca|, |FreeClusters(a.fat)|, bpc, at, want)
    && |cb| == GrownTo(|ca|, |FreeClusters(a.fat)|, bpc, at, want)
  }

  /** The directory entry on disk records this size and first cluster. */
  ghost predicate Recorded(v: Volume, dirCluster: nat, at: nat, size: int, first: int)
  {
    && dirCluster < |v.data| && at + DIR_ENTRY <= |v.data[dirCluster]|
    && RecordedSize(v.data[dirCluster], at) == size && RecordedFirst(v.data[dirCluster], at) == first
  }

  /** A write that fails after the file has got its first cluster: the vnode keeps the cluster, the directory entry
      is not updated. (A first cluster of 1, which no driver writes, is replaced by 0 even on a full volume.) */
  predicate LosesFirst(first: nat, free: nat, bpc: nat, at: nat)
  {
    first < 2 && Times(free, bpc) <= at && (free > 0 || first == 1)
  }

  lemma PatchesRecord(mid: Volume, v: Volume, dirCluster: nat, at: nat, size: int, first: int)
    requires Patches(mid, v, dirCluster, at, size, first)
    ensures Recorded(v, dirCluster, at, size, first)
  {
    hide DirPatched;
    EntryRecorded(mid.data[dirCluster], at, size, first);
  }

  lemma RefusedOutright(a: Volume, ca: seq<nat>, first: nat, size: nat, n: nat, bpc: nat, at: nat, want: nat,
                        dirCluster: nat, dirOffset: nat)
    requires Placed(a, n, bpc, first, ca, size, dirCluster, dirOffset) && Full(a.fat) && first < 2 && bpc > 0
    ensures Decided(a, ca, ca, -1, bpc, at, want)
    ensures Recorded(a, dirCluster, dirOffset, size, first) ==>
              (Recorded(a, dirCluster, dirOffset, size, 0) <==> !LosesFirst(first, |FreeClusters(a.fat)|, bpc, at))
  {
    FullExactly(a.fat);
    TimesStep(0, bpc);
  }

  /** The seek ran out of clusters. */
  lemma RefusedInSeek(a: Volume, ca: seq<nat>, first: nat, b: Volume, cb: seq<nat>, first': nat, size: nat, n: nat,
                      bpc: nat, target: nat, at: nat, want: nat, dirCluster: nat, dirOffset: nat)
    requires Placed(a, n, bpc, first, ca, size, dirCluster, dirOffset)
             && Placed(b, n, bpc, first', cb, size, dirCluster, dirOffset)
    requires Writing(a, ca, b, cb, n, bpc, 0, []) && StartsAt(b.fat, cb, first') && Full(b.fat) && |cb| <= target
             && first' >= 2
    requires (first >= 2 ==> first' == first) && (first < 2 ==> FreeClusters(a.fat) != {})
    ensures Decided(a, ca, cb, -1, bpc, Times(target, bpc) + at, want)
    ensures Recorded(a, dirCluster, dirOffset, size, first) ==>
              (Recorded(b, dirCluster, dirOffset, size, first') <==>
                !LosesFirst(first, |FreeClusters(a.fat)|, bpc, Times(target, bpc) + at))
  {
    hide Times, Shows, RecordedFirst, RecordedSize, IsChain, FreeClusters;
    FullExactly(b.fat);
    ClustersConserved(a, ca, b, cb);
    TimesMonotone(|cb|, target, bpc);
    assert |FreeClusters(b.fat)| == 0;
    assert b.data[dirCluster] == a.data[dirCluster];
  }

  lemma WriteAccepted(a: Volume, ca: seq<nat>, first: nat, mid: Volume, sought: seq<nat>, cb: seq<nat>, first': nat,
                      size: nat, n: nat, bpc: nat, target: nat, at: nat, src: seq<Byte>, written: nat, dirCluster: nat,
                      dirOffset: nat)
    requires Placed(a, n, bpc, first, ca, size, dirCluster, dirOffset) && StartsAt(mid.fat, cb, first')
             && 0 < written <= |src|
    requires Writing(a, ca, mid, cb, n, bpc, Times(target, bpc) + at, src[..written])
    requires first >= 2 ==> sought == ca || |sought| == target + 1 > |ca|
    requires first < 2 ==> |sought| == target + 1
    requires cb == sought || (|cb| > |sought| && Times(|cb| - 1, bpc) < Times(target, bpc) + at + written)
    requires written < |src| ==> Full(mid.fat) && Times(target, bpc) + at + written == Times(|cb|, bpc)
    ensures Decided(a, ca, cb, written, bpc, Times(target, bpc) + at, |src|)
    ensures !LosesFirst(first, |FreeClusters(a.fat)|, bpc, Times(target, bpc) + at)
  {
    hide Times, Shows, IsChain, FreeClusters, Content;
    ClustersConserved(a, ca, mid, cb);
    WrittenFits(a, ca, mid, cb, n, bpc, Times(target, bpc) + at, src[..written], size);
    if written < |src| { FullExactly(mid.fat); }
    var c0, free, c1, e := |ca|, |FreeClusters(a.fat)|, |cb|, Times(target, bpc) + at + written;
    TimesMonotone(c1, c0 + free, bpc);
    if |sought| == target + 1 { TimesStep(target, bpc); }
    NeededClusters(c0, c1, e, bpc);
  }

  /** A chain that grew only as far as byte `e - 1` needs it. */
  lemma NeededClusters(c0: nat, c1: nat, e: nat, bpc: nat)
    requires bpc > 0 && 0 < e <= Times(c1, bpc) && (c1 == c0 || (c1 > c0 && Times(c1 - 1, bpc) < e))
    ensures c1 == Larger(c0, (e - 1) / bpc + 1)
  {
    hide Times;
    var q := (e - 1) / bpc;
    Euclid(e - 1, bpc);
    TimesStep(q, bpc);
    if q + 1 > c1 { TimesMonotone(c1, q, bpc); }
    if c1 > c0 && q + 1 < c1 { TimesMonotone(q + 1, c1 - 1, bpc); }
  }

  function Larger(a: int, b: int): int
  {
    if a > b then a else b
  }

  /** Only the directory entry differs, and it records `size` and `first`. */
  ghost predicate Patches(mid: Volume, v: Volume, dirCluster: nat, at: nat, size: int, first: int)
  {
    && dirCluster < |mid.data| && at + DIR_ENTRY <= |mid.data[dirCluster]| && 0 <= size < SIZE_LIMIT
       && 0 <= first < SIZE_LIMIT
    && v == Volume(mid.fat, mid.data[dirCluster := DirPatched(mid.data[dirCluster], at, size, first)])
  }

  lemma PlacedParts(v: Volume, n: nat, bpc: nat, first: nat, chain: seq<nat>, size: int, dirCluster: nat,
                    dirOffset: nat)
    requires Placed(v, n, bpc, first, chain, size, dirCluster, dirOffset)
    ensures Leads(v.fat, first, chain) && 2 <= dirCluster < n && dirOffset + DIR_ENTRY <= bpc && bpc > 0
            && 0 <= size < SIZE_LIMIT && size <= Times(|chain|, bpc)
  {
  }

  lemma FirstSmall(v: Volume, n: nat, bpc: nat, first: nat, chain: seq<nat>, size: int, dirCluster: nat, dirOffset: nat)
    requires Placed(v, n, bpc, first, chain, size, dirCluster, dirOffset)
    ensures first < SIZE_LIMIT
  {
  }

  lemma StartInTable(fat: seq<nat>, chain: seq<nat>, first: nat)
    requires StartsAt(fat, chain, first) && |fat| < EOC_MIN
    ensures 2 <= first < SIZE_LIMIT
  {
  }

  lemma LeadsFrom(fat: seq<nat>, first: nat, chain: seq<nat>)
    requires StartsAt(fat, chain, first)
    ensures Leads(fat, first, chain)
  {
  }

  /** A file stays well placed while it is written. */
  lemma PlacedAfter(a: Volume, ca: seq<nat>, b: Volume, cb: seq<nat>, n: nat, bpc: nat, offset: nat, src: seq<Byte>,
                    first: nat, first': nat, size: int, dirCluster: nat, dirOffset: nat)
    requires Placed(a, n, bpc, first, ca, size, dirCluster, dirOffset) && Writing(a, ca, b, cb, n, bpc, offset, src)
             && Leads(b.fat, first', cb)
    ensures Placed(b, n, bpc, first', cb, size, dirCluster, dirOffset)
  {
    hide Times, Content;
    PaddedLength(a, ca, |cb|, bpc);
    TimesMonotone(|ca|, |cb|, bpc);
    assert forall i :: 0 <= i < |ca| ==> cb[i] == ca[i];
  }

  lemma WritingAt(a: Volume, ca: seq<nat>, b: Volume, cb: seq<nat>, n: nat, bpc: nat, k: nat, at: nat)
    requires Writing(a, ca, b, cb, n, bpc, 0, []) && k < |cb| && at < bpc
    ensures Writing(a, ca, b, cb, n, bpc, Times(k, bpc) + at, [])
  {
    hide Writing;
    TimesMonotone(k, |cb|, bpc);
    WritingFrom(a, ca, b, cb, n, bpc, Times(k, bpc) + at);
  }

  /** Where a write lands: the driver keeps 32 bits of the cluster index. */
  function Landed(offset: nat, bpc: nat): nat
    requires bpc > 0
  {
    Times(offset / bpc % SIZE_LIMIT, bpc) + offset % bpc
  }

  /** The size after a write up to `end`: compared in 64 bits, stored in 32. */
  function NewSize(size: nat, end: nat): nat
  {
    if end % TWO64 > size then end % TWO64 % SIZE_LIMIT else size
  }

  /** Place and size are those of a byte array exactly when the write ends below 4 GiB. */
  lemma InPlaceExactly(offset: nat, n: nat, size: nat, bpc: nat)
    requires bpc > 0 && size < SIZE_LIMIT && offset + n < TWO64 && n > 0
    ensures Landed(offset, bpc) == offset && NewSize(size, offset + n) == Larger(size, offset + n) <==>
              offset + n < SIZE_LIMIT
  {
    Euclid(offset, bpc);
    if offset < SIZE_LIMIT { Quotient(offset, bpc); }
  }

  lemma Quotient(x: nat, n: nat)
    requires n > 0
    ensures 0 <= x / n <= x
  {
    hide Times;
    Euclid(x, n);
    AtLeast(x / n, n);
  }

  lemma {:induction false} AtLeast(q: nat, n: nat)
    requires n > 0
    ensures Times(q, n) >= q
  {
    if q > 0 {
      AtLeast(q - 1, n);
      TimesStep(q - 1, n);
    }
  }

  /** What was written, and what the file held before, lies inside the chain. */
  lemma WrittenFits(a: Volume, ca: seq<nat>, b: Volume, cb: seq<nat>, n: nat, bpc: nat, offset: nat, src: seq<Byte>,
                    size: nat)
    requires Writing(a, ca, b, cb, n, bpc, offset, src) && size <= Times(|ca|, bpc)
    ensures offset + |src| <= Times(|cb|, bpc) && size <= Times(|cb|, bpc)
  {
    hide Times, Content;
    PaddedLength(a, ca, |cb|, bpc);
    TimesMonotone(|ca|, |cb|, bpc);
  }

  /** `bytes` are the bytes of the chain from `offset` on, as far as it goes. */
  ghost predicate RestOfChain(v: Volume, chain: seq<nat>, offset: nat, count: nat, bytes: seq<Byte>)
  {
    && (forall i :: 0 <= i < |chain| ==> chain[i] < |v.data|)
    && offset <= |Content(v.data, chain)|
       && bytes == Content(v.data, chain)[offset..Smaller(offset + count, |Content(v.data, chain)|)]
  }

  lemma WrappedEnd(offset: nat, count: nat)
    requires offset < TWO64 && count < TWO64
    ensures (offset + count) % TWO64 == if offset + count < TWO64 then offset + count else offset + count - TWO64
  {
  }

  lemma ChainInside(v: Volume, n: nat, bpc: nat, first: nat, chain: seq<nat>, size: int, dirCluster: nat,
                    dirOffset: nat)
    requires Placed(v, n, bpc, first, chain, size, dirCluster, dirOffset)
    ensures forall i :: 0 <= i < |chain| ==> chain[i] < |v.data|
  {
  }

  lemma PatchedPlaced(mid: Volume, n: nat, bpc: nat, first: nat, chain: seq<nat>, size: int, dirCluster: nat,
                      dirOffset: nat)
    requires Placed(mid, n, bpc, first, chain, size, dirCluster, dirOffset) && first < SIZE_LIMIT
    ensures dirCluster < |mid.data| && |mid.data[dirCluster]| == bpc
    ensures Placed(Volume(mid.fat, mid.data[dirCluster := DirPatched(mid.data[dirCluster], dirOffset, size, first)]), n,
              bpc, first, chain, size, dirCluster, dirOffset)
  {
    hide DirPatched;
  }

  lemma FreedNothing(fat: seq<nat>)
    ensures Freed(fat, []) == fat
  {
  }

  lemma FreedPlaced(a: Volume, n: nat, bpc: nat, first: nat, chain: seq<nat>, size: int, dirCluster: nat,
                    dirOffset: nat, first': nat)
    requires Placed(a, n, bpc, first, chain, size, dirCluster, dirOffset) && first' < 2
    ensures Placed(Volume(Freed(a.fat, chain), a.data), n, bpc, first', [], 0, dirCluster, dirOffset)
  {
    TimesStep(0, bpc);
  }

  lemma FileFits(v: Volume, n: nat, bpc: nat, first: nat, chain: seq<nat>, size: int, dirCluster: nat, dirOffset: nat)
    requires Placed(v, n, bpc, first, chain, size, dirCluster, dirOffset)
    ensures Sizes(v.data, chain, bpc) && size <= |Content(v.data, chain)| == Times(|chain|, bpc)
            && (size > 0 ==> bpc > 0 && chain != [])
  {
    ChainSizes(v, chain, n, bpc);
    ContentLength(v.data, chain, bpc);
  }

  lemma ChainLeads(v: Volume, n: nat, bpc: nat, first: nat, chain: seq<nat>, size: int, dirCluster: nat, dirOffset: nat,
                   offset: nat)
    requires Placed(v, n, bpc, first, chain, size, dirCluster, dirOffset) && offset < size
    ensures bpc > 0 && StartsAt(v.fat, chain, first) && IsChain(v.fat, chain) && offset / bpc < |chain|
  {
    FileFits(v, n, bpc, first, chain, size, dirCluster, dirOffset);
    Position(offset, bpc, |chain|);
  }
}
