/** kernel/fs/fat32.cpp, Fat32Filesystem: FAT entries, clusters, allocation and freeing. */
module Fat32 {
  import opened Ram
  import opened LittleEndian
  import opened FatDisk
  import opened FatChains

  function Zeros(n: nat): (z: seq<Byte>)
    ensures |z| == n && forall i :: 0 <= i < n ==> z[i] == 0
  {
    if n == 0 then [] else Zeros(n - 1) + [0]
  }

  class Fat32Filesystem {
    const dev: BlockDevice
    const g: Geometry

    constructor (dev: BlockDevice, g: Geometry)
      ensures this.dev == dev && this.g == g
    {
      this.dev, this.g := dev, g;
    }

    ghost predicate Valid()
      reads this, dev
    {
      g.Fits(|dev.sectors|) && CopiesAgree(dev.sectors, g)
    }

    ghost function Fat(): seq<nat>
      reads this, dev
      requires g.Fits(|dev.sectors|)
    {
      FatOf(dev.sectors, g)
    }

    ghost function Data(): seq<seq<Byte>>
      reads this, dev
      requires g.Fits(|dev.sectors|)
    {
      DataOf(dev.sectors, g)
    }

    /** `read_fat_entry`: the first copy's word, reserved bits masked; off the disk, the bad-cluster mark. */
    method ReadFatEntry(c: nat) returns (e: nat)
      requires g.Fits(|dev.sectors|)
      ensures e < ENTRY_LIMIT && (c < g.total + 2 ==> e == Fat()[c])
    {
      if c < g.total + 2 { EntryOfVolume(dev.sectors, g, c); }
      var at := g.fatBegin + EntrySector(c);
      if at >= |dev.sectors| { return BAD_CLUSTER; }
      var buf := dev.ReadSectors(at, 1);
      OneSector(dev.sectors, at);
      e := WordAt(buf, EntryOffset(c)) % ENTRY_LIMIT;
    }

    /** `write_fat_entry`: read, patch and write back the sector in every copy. */
    method WriteFatEntry(c: nat, value: nat)
      requires g.Fits(|dev.sectors|)
      modifies dev
      ensures |dev.sectors| == |old(dev.sectors)|
      ensures c < g.total + 2 && old(Valid()) ==>
                Valid() && Fat() == old(Fat())[c := value % ENTRY_LIMIT] && Data() == old(Data())
    {
      hide Patched, CopiesAgree, PatchedCopies, EntrySector, EntryOffset;
      ghost var a := dev.sectors;
      ghost var inside := c < g.total + 2;
      if inside {
        EntryInTable(g, c, |a|);
        PatchNone(a, g, c, value);
      }
      for f := 0 to g.copies
        invariant |dev.sectors| == |a| && (inside ==> PatchedCopies(a, dev.sectors, g, c, value, f))
      {
        var at := g.Copy(f) + EntrySector(c);
        if inside { PatchNextCopy(a, dev.sectors, g, c, value, f); }
        if at >= |dev.sectors| { return; }
        PatchOnDisk(at, c, value);
      }
      if inside && old(Valid()) { EntryWritten(a, dev.sectors, g, c, value); }
    }

    method PatchOnDisk(at: nat, c: nat, value: nat)
      requires at < |dev.sectors|
      modifies dev
      ensures dev.sectors == old(dev.sectors)[at := Patched(old(dev.sectors)[at], c, value)]
    {
      var buf := dev.ReadSectors(at, 1);
      OneSector(dev.sectors, at);
      var patched := PutWord(buf, EntryOffset(c), Merged(WordAt(buf, EntryOffset(c)), value));
      dev.WriteSectors(at, 1, patched);
      OneSector(dev.sectors, at);
    }

    /** `read_cluster`. */
    method ReadCluster(c: nat) returns (bytes: seq<Byte>)
      requires Valid() && 2 <= c < g.total + 2
      ensures bytes == Data()[c]
    {
      ClusterInDisk(g, c, |dev.sectors|);
      bytes := dev.ReadSectors(g.ClusterLba(c), g.spc);
    }

    /** `write_cluster`. */
    method WriteCluster(c: nat, bytes: seq<Byte>)
      requires Valid() && 2 <= c < g.total + 2 && |bytes| == g.ClusterBytes()
      modifies dev
      ensures Valid() && Fat() == old(Fat()) && Data() == old(Data())[c := bytes] && |dev.sectors| == |old(dev.sectors)|
    {
      hide CopiesAgree;
      ClusterInDisk(g, c, |dev.sectors|);
      ghost var a := dev.sectors;
      dev.WriteSectors(g.ClusterLba(c), g.spc, bytes);
      ClusterWritten(a, dev.sectors, g, c, bytes);
    }

    /** `alloc_cluster`: the lowest free cluster, ended, linked behind `prev` if there is one, and cleared; 0 when the
        volume is full. */
    method AllocCluster(prev: nat) returns (c: nat)
      requires Valid() && prev < g.total + 2
      modifies dev
      ensures Valid() && |dev.sectors| == |old(dev.sectors)|
      ensures c == 0 <==> FirstFree(old(Fat()), 2) == g.total + 2
      ensures c == 0 ==> Fat() == old(Fat()) && Data() == old(Data())
      ensures c != 0 ==> c == FirstFree(old(Fat()), 2) < g.total + 2 && Fat() == Taken(old(Fat()), prev, c)
                         && Data() == old(Data())[c := Zeros(g.ClusterBytes())]
    {
      hide CopiesAgree, FatOf, DataOf, Geometry.Fits;
      Sized(this);
      c := 2;
      while c < g.total + 2
        invariant dev.sectors == old(dev.sectors) && Valid()
        invariant 2 <= c <= g.total + 2 && FirstFree(Fat(), 2) == FirstFree(Fat(), c)
      {
        var e := ReadFatEntry(c);
        if e == 0 {
          WriteFatEntry(c, EOC);
          if prev >= 2 { WriteFatEntry(prev, c); }
          WriteCluster(c, Zeros(g.ClusterBytes()));
          return;
        }
        c := c + 1;
      }
      return 0;
    }

    /** `free_cluster_chain`: for a well-formed chain exactly its clusters become free; the hop count never cuts it
        short, and ends the walk whatever the table holds. */
    method FreeClusterChain(start: nat, ghost chain: seq<nat>)
      requires Valid()
      modifies dev
      ensures |dev.sectors| == |old(dev.sectors)|
      ensures start < 2 ==> Valid() && Fat() == old(Fat()) && Data() == old(Data())
      ensures StartsAt(old(Fat()), chain, start) ==>
                Valid() && Fat() == Freed(old(Fat()), chain) && Data() == old(Data())
    {
      hide CopiesAgree, FatOf, DataOf, Freed, IsChain, Walked, Geometry.Fits;
      Sized(this);
      if start < 2 {
        NotAChainStart(Fat(), chain, start);
        return;
      }
      ghost var fat, data := Fat(), Data();
      ghost var known := StartsAt(fat, chain, start);
      var curr: nat, hops: nat := start, 0;
      if known { WalkStarts(fat, chain, start); }
      while 2 <= curr < EOC_MIN
        invariant 0 <= hops <= g.total && g.Fits(|dev.sectors|) && |dev.sectors| == |old(dev.sectors)|
        invariant known ==> Valid() && Data() == data && Walked(fat, chain, hops, curr, Fat())
        decreases g.total - hops
      {
        if known { WalkStands(fat, chain, hops, curr, Fat()); }
        hops := hops + 1;
        if hops > g.total { break; }
        var next := ReadFatEntry(curr);
        WriteFatEntry(curr, 0);
        curr := next;
      }
      if known { WalkEnds(fat, chain, hops, curr, Fat()); }
    }
  }

  ghost predicate StartsAt(fat: seq<nat>, chain: seq<nat>, start: nat)
  {
    IsChain(fat, chain) && chain[0] == start
  }

  /** After `hops` steps along a chain the walk stands at `curr`, and the clusters behind it are free. */
  ghost predicate Walked(fat: seq<nat>, chain: seq<nat>, hops: nat, curr: nat, now: seq<nat>)
  {
    && IsChain(fat, chain) && hops <= |chain| && now == Freed(fat, chain[..hops])
    && curr == if hops < |chain| then chain[hops] else fat[chain[|chain| - 1]]
  }

  lemma WalkStarts(fat: seq<nat>, chain: seq<nat>, start: nat)
    requires StartsAt(fat, chain, start)
    ensures Walked(fat, chain, 0, start, fat)
  {
  }

  lemma WalkStands(fat: seq<nat>, chain: seq<nat>, hops: nat, curr: nat, now: seq<nat>)
    requires Walked(fat, chain, hops, curr, now) && curr < EOC_MIN
    ensures hops + 1 <= |fat| - 2 && 2 <= curr < |fat| == |now|
    ensures Walked(fat, chain, hops + 1, now[curr], now[curr := 0])
  {
    ChainFits(fat, chain);
    assert curr !in chain[..hops] by {
      forall i | 0 <= i < hops ensures chain[..hops][i] != curr { }
    }
    FreedMore(fat, chain, hops);
  }

  lemma WalkEnds(fat: seq<nat>, chain: seq<nat>, hops: nat, curr: nat, now: seq<nat>)
    requires Walked(fat, chain, hops, curr, now) && !(2 <= curr < EOC_MIN) && |fat| < EOC_MIN
    ensures now == Freed(fat, chain)
  {
    assert hops == |chain|;
    assert chain[..hops] == chain;
  }

  lemma Sized(fs: Fat32Filesystem)
    requires fs.Valid()
    ensures |fs.Fat()| == fs.g.total + 2 && |fs.Data()| == fs.g.total + 2 && fs.g.total + 2 < EOC_MIN
  {
  }

  lemma OneSector(sectors: seq<Sector>, at: nat)
    requires at < |sectors|
    ensures BytesAt(sectors, at, 1) == sectors[at]
  {
    assert BytesAt(sectors, at, 0) == [];
  }

  lemma PatchNone(a: seq<Sector>, g: Geometry, c: nat, value: nat)
    requires g.Fits(|a|) && EntrySector(c) < g.tableSize
    ensures PatchedCopies(a, a, g, c, value, 0)
  {
  }

  lemma NotAChainStart(fat: seq<nat>, chain: seq<nat>, start: nat)
    requires start < 2
    ensures !StartsAt(fat, chain, start)
  {
  }
}
