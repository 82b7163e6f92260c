/** The FAT32 volume byte by byte: where on the disk the table, the clusters and the directory fields are. */
module DiskLayout {
  import opened Ram
  import opened LittleEndian
  import opened FatDisk
  import opened FatChains
  import opened Fat32Nodes

  /** Byte `k` of the disk. */
  function DiskByte(sectors: seq<Sector>, k: nat): Byte
    requires k < 512 * |sectors|
  {
    sectors[k / 512][k % 512]
  }

  lemma ByteOfSector(sectors: seq<Sector>, s: nat, i: nat)
    requires s < |sectors| && i < 512
    ensures 512 * s + i < 512 * |sectors| && DiskByte(sectors, 512 * s + i) == sectors[s][i]
  {
    assert (512 * s + i) / 512 == s && (512 * s + i) % 512 == i;
  }

  /** Entry `c` is the low 28 bits of the little-endian word at byte 4c of the first table. */
  lemma FatEntryOnDisk(sectors: seq<Sector>, g: Geometry, c: nat)
    requires g.Fits(|sectors|) && c < g.total + 2
    ensures var p := 512 * g.fatBegin + 4 * c;
            && p + 4 <= 512 * |sectors|
            && FatOf(sectors, g)[c] ==
                 (DiskByte(sectors, p) as int + 0x100 * (DiskByte(sectors, p + 1) as int)
                  + 0x1_0000 * (DiskByte(sectors, p + 2) as int) + 0x100_0000 * (DiskByte(sectors, p + 3) as int))
                 % 0x1000_0000
  {
    EntryInTable(g, c, |sectors|);
    CopyMonotone(g, 0, g.copies);
    EntryPlace(c, c);
    hide EntrySector, EntryOffset, Geometry.Fits;
    var s, o := g.fatBegin + EntrySector(c), EntryOffset(c);
    EntryOfVolume(sectors, g, c);
    assert 512 * g.fatBegin + 4 * c == 512 * s + o;
    InsideTable(sectors, g, c);
    ByteOfSector(sectors, s, o);
    ByteOfSector(sectors, s, o + 1);
    ByteOfSector(sectors, s, o + 2);
    ByteOfSector(sectors, s, o + 3);
  }

  lemma InsideTable(sectors: seq<Sector>, g: Geometry, c: nat)
    requires g.Fits(|sectors|) && c < g.total + 2
    ensures g.fatBegin + EntrySector(c) < |sectors| && g.Copy(0) == g.fatBegin
  {
    hide EntrySector;
    EntryInTable(g, c, |sectors|);
    CopyMonotone(g, 0, g.copies);
  }

  /** The copies of the table follow one another and hold the same bytes. */
  lemma CopiesOnDisk(sectors: seq<Sector>, g: Geometry, f: nat, k: nat)
    requires g.Fits(|sectors|) && CopiesAgree(sectors, g) && f < g.copies && k < 512 * g.tableSize
    ensures var p, q := 512 * (g.fatBegin + f * g.tableSize) + k, 512 * g.fatBegin + k;
            && p < 512 * |sectors| && q < 512 * |sectors| && DiskByte(sectors, p) == DiskByte(sectors, q)
  {
    var s, i := k / 512, k % 512;
    CopyMonotone(g, f, g.copies);
    CopyMonotone(g, 0, g.copies);
    assert SectorOf(sectors, g, f, s) == SectorOf(sectors, g, 0, s);
    assert g.Copy(f) == g.fatBegin + f * g.tableSize;
    assert g.Copy(0) == g.fatBegin;
    ByteOfSector(sectors, g.Copy(f) + s, i);
    ByteOfSector(sectors, g.fatBegin + s, i);
    assert 512 * (g.fatBegin + f * g.tableSize) + k == 512 * (g.Copy(f) + s) + i;
  }

  lemma {:induction false} ByteOfRun(sectors: seq<Sector>, lba: nat, n: nat, k: nat)
    requires lba + n <= |sectors| && k < 512 * n
    ensures 512 * lba + k < 512 * |sectors| && BytesAt(sectors, lba, n)[k] == DiskByte(sectors, 512 * lba + k)
  {
    if k < 512 * (n - 1) {
      ByteOfRun(sectors, lba, n - 1, k);
    } else {
      ByteOfSector(sectors, lba + n - 1, k - 512 * (n - 1));
      assert 512 * lba + k == 512 * (lba + n - 1) + (k - 512 * (n - 1));
    }
  }

  /** The clusters follow the tables; the first is number 2. */
  lemma ClusterOnDisk(sectors: seq<Sector>, g: Geometry, c: nat, k: nat)
    requires g.Fits(|sectors|) && 2 <= c < g.total + 2 && k < 512 * g.spc
    ensures |DataOf(sectors, g)[c]| == 512 * g.spc
    ensures var p := 512 * (g.fatBegin + g.copies * g.tableSize + (c - 2) * g.spc) + k;
            p < 512 * |sectors| && DataOf(sectors, g)[c][k] == DiskByte(sectors, p)
  {
    ClusterInDisk(g, c, |sectors|);
    ByteOfRun(sectors, g.ClusterLba(c), g.spc, k);
    assert g.ClusterLba(c) == g.fatBegin + g.copies * g.tableSize + (c - 2) * g.spc;
  }

  /** A directory entry keeps the size at byte 28 and the first cluster in two halves, low at byte 26, high at 20. */
  lemma RecordOnDisk(v: Volume, dir: nat, at: nat, size: int, first: int)
    requires dir < |v.data| && at + 32 <= |v.data[dir]|
    ensures var s := v.data[dir];
            Recorded(v, dir, at, size, first) <==>
              && size == s[at + 28] as int + 0x100 * (s[at + 29] as int) + 0x1_0000 * (s[at + 30] as int)
                         + 0x100_0000 * (s[at + 31] as int)
              && first == s[at + 26] as int + 0x100 * (s[at + 27] as int) + 0x1_0000 * (s[at + 20] as int)
                          + 0x100_0000 * (s[at + 21] as int)
  {
  }

  /** A cluster taken ends its chain with 0x0FFFFFFF, its predecessor names it, and no other entry changes. */
  lemma TakenExactly(fat: seq<nat>, prev: nat, c: nat)
    requires c < |fat| && prev < |fat| && prev != c
    ensures var r := Taken(fat, prev, c);
            && |r| == |fat| && r[c] == 0x0FFF_FFFF && (prev >= 2 ==> r[prev] == c)
            && forall d :: 0 <= d < |fat| && d != c && (d != prev || prev < 2) ==> r[d] == fat[d]
  {
  }
}
