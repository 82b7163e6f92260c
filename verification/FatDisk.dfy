/** kernel/fs/fat32.cpp: where FAT entries and clusters live on the disk. */
module FatDisk {
  import opened Ram
  import opened LittleEndian

  const SECTOR: nat := 512
  const ENTRY_LIMIT: int := 0x1000_0000

  type Sector = s: seq<Byte> | |s| == SECTOR witness seq(SECTOR, _ => 0)

  function Times(a: nat, b: nat): nat
  {
    a * b
  }

  /** Geometry read from the BIOS parameter block. */
  datatype Geometry = Geometry(fatBegin: nat, tableSize: nat, copies: nat, spc: nat, total: nat) {
    /** First sector of FAT copy `f`. */
    function Copy(f: nat): nat
    {
      fatBegin + Times(f, tableSize)
    }

    function DataBegin(): nat
    {
      Copy(copies)
    }

    /** `cluster_to_lba`. */
    function ClusterLba(c: nat): nat
    {
      if c < 2 then DataBegin() else DataBegin() + Times(c - 2, spc)
    }

    function ClusterBytes(): nat
    {
      spc * SECTOR
    }

    /** The FAT has room for every cluster, and the disk for both FAT copies and clusters. */
    predicate Fits(sectors: nat)
    {
      && copies > 0 && spc > 0 && (total + 2) * 4 <= tableSize * SECTOR && total + 2 <= 0x0FFF_FFF0
      && DataBegin() + Times(total, spc) <= sectors
    }
  }

  lemma {:induction false} MulGap(a: nat, b: nat, n: nat)
    requires a < b
    ensures Times(a, n) + n <= Times(b, n)
  {
    if a + 1 < b { MulGap(a, b - 1, n); }
    assert Times(b, n) == Times(b - 1, n) + n;
  }

  /** The stored word with its low 28 bits replaced. */
  function Merged(orig: int, value: nat): (w: int)
    requires 0 <= orig < 0x1_0000_0000
    ensures 0 <= w < 0x1_0000_0000 && w % ENTRY_LIMIT == value % ENTRY_LIMIT && w / ENTRY_LIMIT == orig / ENTRY_LIMIT
  {
    orig / ENTRY_LIMIT * ENTRY_LIMIT + value % ENTRY_LIMIT
  }

  // ---------------------------------------------------------------- FAT entries

  /** Sector of the table, and offset in it, of entry `c`. */
  function EntrySector(c: nat): nat { c * 4 / SECTOR }
  function EntryOffset(c: nat): (o: nat)
    ensures o + 4 <= SECTOR && o % 4 == 0
  {
    c * 4 % SECTOR
  }

  lemma EntryPlace(c: nat, d: nat)
    ensures c * 4 == EntrySector(c) * SECTOR + EntryOffset(c)
    ensures EntrySector(c) == EntrySector(d) && EntryOffset(c) == EntryOffset(d) ==> c == d
    ensures EntrySector(c) == EntrySector(d) && c != d ==>
              EntryOffset(c) + 4 <= EntryOffset(d) || EntryOffset(d) + 4 <= EntryOffset(c)
  {
  }

  lemma EntryInTable(g: Geometry, c: nat, sectors: nat)
    requires g.Fits(sectors) && c < g.total + 2
    ensures EntrySector(c) < g.tableSize
  {
    EntryPlace(c, c);
  }

  /** Entry `c` of FAT copy `f`, without the four reserved bits. */
  function EntryIn(sectors: seq<Sector>, g: Geometry, f: nat, c: nat): (e: nat)
    requires g.Copy(f) + EntrySector(c) < |sectors|
    ensures e < ENTRY_LIMIT
  {
    WordAt(sectors[g.Copy(f) + EntrySector(c)], EntryOffset(c)) % ENTRY_LIMIT
  }

  lemma CopyMonotone(g: Geometry, f: nat, f': nat)
    requires f <= f'
    ensures g.Copy(f) <= g.Copy(f')
    ensures f < f' ==> g.Copy(f) + g.tableSize <= g.Copy(f')
  {
    if f < f' { MulGap(f, f', g.tableSize); }
  }

  /** All copies of the table are the same, sector by sector. */
  ghost predicate CopiesAgree(sectors: seq<Sector>, g: Geometry)
    requires g.DataBegin() <= |sectors|
  {
    forall f, s {:trigger SectorOf(sectors, g, f, s)} :: 0 <= f < g.copies && 0 <= s < g.tableSize ==>
      SectorOf(sectors, g, f, s) == SectorOf(sectors, g, 0, s)
  }

  ghost function SectorOf(sectors: seq<Sector>, g: Geometry, f: int, s: int): Sector
    requires g.DataBegin() <= |sectors| && 0 <= f < g.copies && 0 <= s < g.tableSize
  {
    CopyMonotone(g, f, g.copies);
    sectors[g.Copy(f) + s]
  }

  /** Entry `c` patched in the first `n` copies of the table. */
  ghost predicate PatchedCopies(old_: seq<Sector>, new_: seq<Sector>, g: Geometry, c: nat, value: nat, n: nat)
  {
    && |new_| == |old_| && g.DataBegin() <= |old_| && n <= g.copies && EntrySector(c) < g.tableSize
    && (forall k :: g.DataBegin() <= k < |old_| ==> new_[k] == old_[k])
    && (forall f, s {:trigger SectorOf(new_, g, f, s)} :: 0 <= f < g.copies && 0 <= s < g.tableSize ==>
          SectorOf(new_, g, f, s) ==
            if f < n && s == EntrySector(c) then Patched(SectorOf(old_, g, f, s), c, value)
            else SectorOf(old_, g, f, s))
  }

  /** One FAT sector with entry `c` set. */
  function Patched(s: Sector, c: nat, value: nat): Sector
  {
    var i := EntryOffset(c);
    var w := Merged(WordAt(s, i), value);
    var r: seq<Byte> := PutWord(s, i, w);
    r
  }

  lemma PatchedEntry(s: Sector, c: nat, value: nat, d: nat)
    requires EntrySector(c) == EntrySector(d)
    ensures WordAt(Patched(s, c, value), EntryOffset(d)) % ENTRY_LIMIT ==
              if d == c then value % ENTRY_LIMIT else WordAt(s, EntryOffset(d)) % ENTRY_LIMIT
  {
    EntryPlace(c, d);
    PutWordAt(s, EntryOffset(c), Merged(WordAt(s, EntryOffset(c)), value), EntryOffset(d));
  }

  lemma PatchNextCopy(old_: seq<Sector>, cur: seq<Sector>, g: Geometry, c: nat, value: nat, n: nat)
    requires PatchedCopies(old_, cur, g, c, value, n) && n < g.copies
    ensures g.Copy(n) + EntrySector(c) < g.DataBegin()
    ensures PatchedCopies(old_, cur[g.Copy(n) + EntrySector(c) := Patched(cur[g.Copy(n) + EntrySector(c)], c, value)],
              g, c, value, n + 1)
  {
    CopyMonotone(g, n, g.copies);
    var at := g.Copy(n) + EntrySector(c);
    var new_ := cur[at := Patched(cur[at], c, value)];
    assert SectorOf(cur, g, n, EntrySector(c)) == cur[at];
    forall f, s | 0 <= f < g.copies && 0 <= s < g.tableSize
      ensures SectorOf(new_, g, f, s) ==
                if f < n + 1 && s == EntrySector(c) then Patched(SectorOf(old_, g, f, s), c, value)
                else SectorOf(old_, g, f, s)
    {
      hide Patched;
      CopyMonotone(g, f, g.copies);
      if f < n { CopyMonotone(g, f, n); }
      if n < f { CopyMonotone(g, n, f); }
      assert SectorOf(new_, g, f, s) ==
               if f == n && s == EntrySector(c) then Patched(cur[at], c, value) else SectorOf(cur, g, f, s);
    }
  }

  // ---------------------------------------------------------------- clusters

  /** The bytes of `n` sectors from `lba`. */
  function BytesAt(sectors: seq<Sector>, lba: nat, n: nat): (b: seq<Byte>)
    requires lba + n <= |sectors|
    ensures |b| == n * SECTOR
  {
    if n == 0 then [] else BytesAt(sectors, lba, n - 1) + sectors[lba + n - 1]
  }

  lemma {:induction false} BytesFrame(a: seq<Sector>, b: seq<Sector>, lba: nat, n: nat)
    requires lba + n <= |a| && lba + n <= |b| && forall k :: lba <= k < lba + n ==> a[k] == b[k]
    ensures BytesAt(a, lba, n) == BytesAt(b, lba, n)
  {
    if n > 0 { BytesFrame(a, b, lba, n - 1); }
  }

  lemma ClustersApart(g: Geometry, c: nat, d: nat)
    requires 2 <= c < d
    ensures g.ClusterLba(c) + g.spc <= g.ClusterLba(d)
  {
    MulGap(c - 2, d - 2, g.spc);
  }

  lemma ClusterInDisk(g: Geometry, c: nat, sectors: nat)
    requires g.Fits(sectors) && 2 <= c < g.total + 2
    ensures g.DataBegin() <= g.ClusterLba(c) && g.ClusterLba(c) + g.spc <= sectors
  {
    MulGap(c - 2, g.total, g.spc);
  }

  // ---------------------------------------------------------------- the volume a disk holds

  /** FAT entries and cluster contents, by cluster number. */
  datatype Volume = Volume(fat: seq<nat>, data: seq<seq<Byte>>)

  ghost function FatOf(sectors: seq<Sector>, g: Geometry): (fat: seq<nat>)
    requires g.Fits(|sectors|)
    ensures |fat| == g.total + 2
  {
    seq(g.total + 2, c requires 0 <= c < g.total + 2 =>
      EntryInTable(g, c, |sectors|); CopyMonotone(g, 0, g.copies); EntryIn(sectors, g, 0, c))
  }

  ghost function DataOf(sectors: seq<Sector>, g: Geometry): (data: seq<seq<Byte>>)
    requires g.Fits(|sectors|)
    ensures |data| == g.total + 2
  {
    seq(g.total + 2, c requires 0 <= c < g.total + 2 =>
      if c < 2 then [] else (ClusterInDisk(g, c, |sectors|); BytesAt(sectors, g.ClusterLba(c), g.spc)))
  }

  lemma EntryOfVolume(sectors: seq<Sector>, g: Geometry, c: nat)
    requires g.Fits(|sectors|) && c < g.total + 2
    ensures EntrySector(c) < g.tableSize && g.Copy(0) + EntrySector(c) < |sectors|
    ensures FatOf(sectors, g)[c] == EntryIn(sectors, g, 0, c)
  {
    EntryInTable(g, c, |sectors|);
    CopyMonotone(g, 0, g.copies);
  }

  /** Writing one entry into every copy: that entry changes, the copies still agree, no cluster is touched. */
  lemma EntryWritten(a: seq<Sector>, b: seq<Sector>, g: Geometry, c: nat, value: nat)
    requires g.Fits(|a|) && c < g.total + 2 && PatchedCopies(a, b, g, c, value, g.copies) && CopiesAgree(a, g)
    ensures g.Fits(|b|) && CopiesAgree(b, g)
    ensures FatOf(b, g) == FatOf(a, g)[c := value % ENTRY_LIMIT] && DataOf(b, g) == DataOf(a, g)
  {
    hide Patched, EntrySector, EntryOffset;
    forall d: nat | d < g.total + 2 ensures FatOf(b, g)[d] == if d == c then value % ENTRY_LIMIT else FatOf(a, g)[d] {
      EntryOfVolume(a, g, d);
      EntryOfVolume(b, g, d);
      assert SectorOf(b, g, 0, EntrySector(d)) == b[g.Copy(0) + EntrySector(d)];
      assert SectorOf(a, g, 0, EntrySector(d)) == a[g.Copy(0) + EntrySector(d)];
      if EntrySector(d) == EntrySector(c) { PatchedEntry(SectorOf(a, g, 0, EntrySector(c)), c, value, d); }
    }
    forall d: nat | d < g.total + 2 ensures DataOf(b, g)[d] == DataOf(a, g)[d] {
      if d >= 2 {
        ClusterInDisk(g, d, |a|);
        BytesFrame(a, b, g.ClusterLba(d), g.spc);
      }
    }
    forall f, s | 0 <= f < g.copies && 0 <= s < g.tableSize ensures SectorOf(b, g, f, s) == SectorOf(b, g, 0, s) {
      assert SectorOf(a, g, f, s) == SectorOf(a, g, 0, s);
    }
  }

  /** The disk after the bytes of `n` sectors were written at `lba`. */
  ghost predicate Overwritten(a: seq<Sector>, b: seq<Sector>, lba: nat, n: nat, bytes: seq<Byte>)
  {
    && lba + n <= |a| == |b| && |bytes| == n * SECTOR
    && (forall k :: 0 <= k < |a| && !(lba <= k < lba + n) ==> b[k] == a[k])
    && BytesAt(b, lba, n) == bytes
  }

  /** Writing one cluster: that cluster changes, and no other, and no FAT entry. */
  lemma ClusterWritten(a: seq<Sector>, b: seq<Sector>, g: Geometry, c: nat, bytes: seq<Byte>)
    requires g.Fits(|a|) && 2 <= c < g.total + 2 && CopiesAgree(a, g)
             && Overwritten(a, b, g.ClusterLba(c), g.spc, bytes)
    ensures g.Fits(|b|) && CopiesAgree(b, g)
    ensures FatOf(b, g) == FatOf(a, g) && DataOf(b, g) == DataOf(a, g)[c := bytes]
  {
    hide EntrySector, EntryOffset, WordAt;
    ClusterInDisk(g, c, |a|);
    forall d: nat | d < g.total + 2 ensures FatOf(b, g)[d] == FatOf(a, g)[d] {
      EntryOfVolume(a, g, d);
      EntryOfVolume(b, g, d);
      CopyMonotone(g, 0, g.copies);
    }
    forall d: nat | d < g.total + 2 ensures DataOf(b, g)[d] == DataOf(a, g)[c := bytes][d] {
      if d >= 2 && d != c {
        ClusterInDisk(g, d, |a|);
        if d < c { ClustersApart(g, d, c); } else { ClustersApart(g, c, d); }
        BytesFrame(a, b, g.ClusterLba(d), g.spc);
      }
    }
    forall f, s | 0 <= f < g.copies && 0 <= s < g.tableSize ensures SectorOf(b, g, f, s) == SectorOf(b, g, 0, s) {
      CopyMonotone(g, f, g.copies);
      CopyMonotone(g, 0, g.copies);
      assert SectorOf(a, g, f, s) == SectorOf(a, g, 0, s);
      assert SectorOf(b, g, f, s) == SectorOf(a, g, f, s) && SectorOf(b, g, 0, s) == SectorOf(a, g, 0, s);
    }
  }

  // ---------------------------------------------------------------- the block device

  class BlockDevice {
    var sectors: seq<Sector>

    /** `read_sectors` on a device that does not fail. */
    method ReadSectors(lba: nat, count: nat) returns (bytes: seq<Byte>)
      requires lba + count <= |sectors|
      ensures bytes == BytesAt(sectors, lba, count)
    {
      bytes := [];
      for i := 0 to count
        invariant bytes == BytesAt(sectors, lba, i)
      {
        bytes := bytes + sectors[lba + i];
      }
    }

    /** `write_sectors`. */
    method WriteSectors(lba: nat, count: nat, bytes: seq<Byte>)
      requires lba + count <= |sectors| && |bytes| == count * SECTOR
      modifies this
      ensures Overwritten(old(sectors), sectors, lba, count, bytes)
    {
      for i := 0 to count
        invariant |sectors| == |old(sectors)|
        invariant forall k :: 0 <= k < |sectors| && !(lba <= k < lba + i) ==> sectors[k] == old(sectors)[k]
        invariant BytesAt(sectors, lba, i) == bytes[..i * SECTOR]
      {
        var piece: Sector := bytes[i * SECTOR..(i + 1) * SECTOR];
        ghost var before := sectors;
        sectors := sectors[lba + i := piece];
        BytesFrame(before, sectors, lba, i);
        assert bytes[..(i + 1) * SECTOR] == bytes[..i * SECTOR] + piece;
      }
      assert bytes[..count * SECTOR] == bytes;
    }
  }
}
