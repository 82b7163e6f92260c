/** One small volume of two clusters, each of one sector, on which the driver's promises fail. */
module SampleVolumes {
  import opened Ram
  import opened LittleEndian
  import opened FatDisk
  import opened FatChains
  import opened Fat32
  import opened FileContent
  import opened Fat32Files
  import opened Fat32Nodes
  import opened FileTheorems

  function Ones(): (s: seq<Byte>)
    ensures |s| == 512 && forall i :: 0 <= i < 512 ==> s[i] == 1
  {
    seq(512, i => 1)
  }

  function Blank(): (s: seq<Byte>)
    ensures |s| == 512 && forall i :: 0 <= i < 512 ==> s[i] == 0
  {
    seq(512, i => 0)
  }

  /** Cluster 2 is the directory, its first entry empty; cluster 3 holds ones, and `next` is its table entry. */
  function Sample(next: nat): Volume
  {
    Volume([0, 0, EOC_MIN, next], [[], [], Blank(), Ones()])
  }

  /** An empty file, and one free cluster: a write of one byte at 512 takes the cluster, fails, and the directory
      entry no longer matches the file. */
  lemma FirstClusterLost()
    ensures var v := Sample(0);
            && Placed(v, 4, 512, 0, [], 0, 2, 0) && Recorded(v, 2, 0, 0, 0) && |FreeClusters(v.fat)| == 1
            && Accepted(0, 1, 512, 512, 1) == -1 && LosesFirst(0, 1, 512, 512)
  {
    var v := Sample(0);
    assert FreeClusters(v.fat) == {3};
  }

  /** A file whose chain is cluster 3 is in order exactly up to the bytes of one cluster. */
  lemma OneClusterFile(size: nat)
    ensures Placed(Sample(EOC_MIN), 4, 512, 3, [3], size, 2, 0) <==> size <= 512
    ensures Content(Sample(EOC_MIN).data, [3]) == Ones()
  {
    hide Ones, Blank;
    var v := Sample(EOC_MIN);
    assert Content(v.data, [3]) == Content(v.data, []) + v.data[3];
  }

  /** Truncating that file to 513 bytes records a size its chain does not hold; truncating it to 2^32 records none. */
  lemma TruncateOutgrows()
    ensures Placed(Sample(EOC_MIN), 4, 512, 3, [3], 1, 2, 0)
            && !Placed(Sample(EOC_MIN), 4, 512, 3, [3], 513 % SIZE_LIMIT, 2, 0)
    ensures 0x1_0000_0000 % SIZE_LIMIT == 0
  {
    OneClusterFile(1);
    OneClusterFile(513);
  }

  /** Writing at 3 after its only byte leaves what the cluster held before in between, not zeroes. */
  lemma GapShowsOldBytes()
    ensures var a := Sample(EOC_MIN);
            var b := Volume(a.fat, a.data[3 := Splice(a.data[3], 3, [7])]);
            && Placed(a, 4, 512, 3, [3], 1, 2, 0) && Writing(a, [3], b, [3], 4, 512, 3, [7])
            && !ZeroBetween(Content(b.data, [3]), 1, 3)
  {
    var a := Sample(EOC_MIN);
    var b := Volume(a.fat, a.data[3 := Splice(a.data[3], 3, [7])]);
    OneClusterFile(1);
    assert Content(b.data, [3]) == Content(b.data, []) + b.data[3];
    assert Content(b.data, [3])[1] == 1;
    assert Padded(a, [3], 1, 512) == Ones();
  }

  /** Reading 2^64 - 1 bytes at 1 of a file of two: the sum wraps to 0, and the rest of the cluster comes back. */
  lemma ReadPastTheEnd()
    ensures var v := Sample(EOC_MIN);
            var c := Content(v.data, [3]);
            && Placed(v, 4, 512, 3, [3], 2, 2, 0) && |c| == 512
            && RestOfChain(v, [3], 1, TWO64 - 1, c[1..]) && Window(c[..2], 1, TWO64 - 1) == [1]
  {
    OneClusterFile(2);
  }

  /** A write at 2^32 clusters in lands at the start of the file; one that ends at 2^32 leaves the recorded size at
      0. */
  lemma WriteWraps()
    ensures Landed(0x1_0000_0000 * 512, 512) == 0 && NewSize(0, 0x1_0000_0000) == 0
  {
  }
}
