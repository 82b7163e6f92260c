/** The FAT as a set of chains (the "FAT Data Structure" section of the Microsoft FAT32 File System Specification). */
module FatChains {
  import opened Sequences
  import opened FatDisk

  const EOC_MIN: nat := 0x0FFF_FFF8
  const EOC: nat := 0x0FFF_FFFF
  const BAD_CLUSTER: nat := 0x0FFF_FFF7

  predicate DistinctClusters(chain: seq<nat>)
  {
    forall i, j :: 0 <= i < j < |chain| ==> chain[i] != chain[j]
  }

  /** Clusters linked one to the next; the last one carries an end mark. */
  predicate IsChain(fat: seq<nat>, chain: seq<nat>)
  {
    && chain != [] && DistinctClusters(chain)
    && (forall i :: 0 <= i < |chain| ==> 2 <= chain[i] < |fat|)
    && (forall i :: 0 <= i < |chain| - 1 ==> fat[chain[i]] == chain[i + 1])
    && fat[chain[|chain| - 1]] >= EOC_MIN
  }

  predicate Disjoint(a: seq<nat>, b: seq<nat>)
  {
    forall i, j :: 0 <= i < |a| && 0 <= j < |b| ==> a[i] != b[j]
  }

  ghost predicate InSome(chains: seq<seq<nat>>, c: nat)
  {
    exists k :: 0 <= k < |chains| && c in chains[k]
  }

  /** Every cluster is free or belongs to exactly one of the chains. */
  ghost predicate Partition(fat: seq<nat>, chains: seq<seq<nat>>)
  {
    && (forall k :: 0 <= k < |chains| ==> IsChain(fat, chains[k]))
    && (forall k, m :: 0 <= k < m < |chains| ==> Disjoint(chains[k], chains[m]))
    && (forall c :: 2 <= c < |fat| ==> (fat[c] != 0 <==> InSome(chains, c)))
  }

  /** A chain has at most as many clusters as the volume. */
  lemma ChainFits(fat: seq<nat>, chain: seq<nat>)
    requires IsChain(fat, chain)
    ensures |chain| <= |fat| - 2
  {
    var shifted: seq<int> := seq(|chain|, i requires 0 <= i < |chain| => chain[i] - 2);
    Pigeonhole(shifted, |fat| - 2);
  }

  /** A chain is determined by its first cluster. */
  lemma {:induction false} ChainUnique(fat: seq<nat>, a: seq<nat>, b: seq<nat>, n: nat)
    requires IsChain(fat, a) && IsChain(fat, b) && a[0] == b[0] && n <= |a| && |fat| < EOC_MIN
    ensures n <= |b| && a[..n] == b[..n]
  {
    if n > 1 {
      ChainUnique(fat, a, b, n - 1);
      assert a[n - 2] == a[..n - 1][n - 2] == b[..n - 1][n - 2] == b[n - 2];
      assert fat[a[n - 2]] == a[n - 1] < EOC_MIN;
    }
  }

  // ---------------------------------------------------------------- allocation

  /** The lowest free cluster from `from` on, or the size of the table. */
  function FirstFree(fat: seq<nat>, from: nat): (c: nat)
    requires from <= |fat|
    ensures from <= c <= |fat| && (c < |fat| ==> fat[c] == 0) && forall d :: from <= d < c ==> fat[d] != 0
    decreases |fat| - from
  {
    if from == |fat| || fat[from] == 0 then from else FirstFree(fat, from + 1)
  }

  /** Clusters that can still be allocated. */
  ghost function FreeClusters(fat: seq<nat>): set<nat>
  {
    set c: nat | 2 <= c < |fat| && fat[c] == 0
  }

  /** The table after `c` was taken and linked behind `prev`. */
  function Taken(fat: seq<nat>, prev: nat, c: nat): seq<nat>
    requires c < |fat| && (prev >= 2 ==> prev < |fat|)
  {
    if prev >= 2 then fat[c := EOC][prev := c] else fat[c := EOC]
  }

  /** Other chains do not notice a change outside them. */
  lemma ChainFrame(fat: seq<nat>, fat': seq<nat>, chain: seq<nat>)
    requires IsChain(fat, chain) && |fat'| == |fat| && forall i :: 0 <= i < |chain| ==> fat'[chain[i]] == fat[chain[i]]
    ensures IsChain(fat', chain)
  {
  }

  lemma FreeIsOutside(fat: seq<nat>, chain: seq<nat>, c: nat)
    requires IsChain(fat, chain) && c < |fat| && fat[c] == 0
    ensures c !in chain
  {
    if i :| 0 <= i < |chain| && chain[i] == c {
      assert i == |chain| - 1 || fat[chain[i]] == chain[i + 1];
    }
  }

  lemma ExtendedChain(fat: seq<nat>, chain: seq<nat>, c: nat)
    requires IsChain(fat, chain) && 2 <= c < |fat| && fat[c] == 0
    ensures IsChain(Taken(fat, chain[|chain| - 1], c), chain + [c])
  {
    FreeIsOutside(fat, chain, c);
    var fat', last := Taken(fat, chain[|chain| - 1], c), |chain| - 1;
    forall i | 0 <= i < last ensures fat'[chain[i]] == fat[chain[i]] { assert chain[i] != chain[last]; }
  }

  /** Allocation at the end of a chain extends that chain and no other. */
  lemma AllocExtends(fat: seq<nat>, chains: seq<seq<nat>>, k: nat, c: nat)
    requires Partition(fat, chains) && k < |chains| && 2 <= c < |fat| && fat[c] == 0
    ensures var chain := chains[k]; Partition(Taken(fat, chain[|chain| - 1], c), chains[k := chain + [c]])
  {
    hide IsChain, InSome, Disjoint, Taken;
    var chain := chains[k];
    assert IsChain(fat, chain);
    ChainEnds(fat, chain);
    var last := chain[|chain| - 1];
    var fat', chains' := Taken(fat, last, c), chains[k := chain + [c]];
    TakenEntries(fat, last, c);
    ExtendedChain(fat, chain, c);
    forall m | 0 <= m < |chains| && m != k
      ensures IsChain(fat', chains[m]) && Disjoint(chain + [c], chains[m]) && Disjoint(chains[m], chain + [c])
    {
      DisjointSym(chains, k, m);
      OtherChain(fat, chain, chains[m], c);
    }
    forall m, n | 0 <= m < n < |chains'| ensures Disjoint(chains'[m], chains'[n]) { }
    forall d | 2 <= d < |fat'| ensures fat'[d] != 0 <==> InSome(chains', d) { MemberMoved(chains, k, c, d); }
  }

  lemma ChainEnds(fat: seq<nat>, chain: seq<nat>)
    requires IsChain(fat, chain)
    ensures chain != [] && 2 <= chain[|chain| - 1] < |fat| && fat[chain[|chain| - 1]] >= EOC_MIN
            && 2 <= chain[0] < |fat|
  {
  }

  lemma TakenEntries(fat: seq<nat>, prev: nat, c: nat)
    requires 2 <= c < |fat| && 2 <= prev < |fat| && fat[prev] != 0
    ensures |Taken(fat, prev, c)| == |fat|
    ensures forall d :: 2 <= d < |fat| ==> (Taken(fat, prev, c)[d] != 0 <==> fat[d] != 0 || d == c)
  {
  }

  lemma OtherChain(fat: seq<nat>, chain: seq<nat>, other: seq<nat>, c: nat)
    requires IsChain(fat, chain) && IsChain(fat, other) && Disjoint(chain, other) && 2 <= c < |fat| && fat[c] == 0
    ensures IsChain(Taken(fat, chain[|chain| - 1], c), other) && Disjoint(chain + [c], other)
            && Disjoint(other, chain + [c])
  {
    FreeIsOutside(fat, other, c);
    ChainFrame(fat, Taken(fat, chain[|chain| - 1], c), other);
  }

  lemma DisjointSym(chains: seq<seq<nat>>, k: nat, m: nat)
    requires k < |chains| && m < |chains| && k != m
    requires forall i, j :: 0 <= i < j < |chains| ==> Disjoint(chains[i], chains[j])
    ensures Disjoint(chains[k], chains[m])
  {
    if k > m { assert Disjoint(chains[m], chains[k]); }
  }

  lemma MemberMoved(chains: seq<seq<nat>>, k: nat, c: nat, d: nat)
    requires k < |chains|
    ensures InSome(chains[k := chains[k] + [c]], d) <==> InSome(chains, d) || d == c
  {
    var chains' := chains[k := chains[k] + [c]];
    assert forall m :: 0 <= m < |chains| ==> (d in chains'[m] <==> d in chains[m] || (m == k && d == c));
    if InSome(chains, d) {
      var m :| 0 <= m < |chains| && d in chains[m];
      assert d in chains'[m];
    }
    if d == c { assert d in chains'[k]; }
  }

  /** Allocation with no predecessor starts a chain of its own. */
  lemma AllocStarts(fat: seq<nat>, chains: seq<seq<nat>>, c: nat)
    requires Partition(fat, chains) && 2 <= c < |fat| && fat[c] == 0
    ensures Partition(Taken(fat, 0, c), chains + [[c]])
  {
    hide IsChain, InSome, Disjoint;
    var fat', chains' := Taken(fat, 0, c), chains + [[c]];
    forall m | 0 <= m < |chains| ensures IsChain(fat', chains[m]) && Disjoint(chains[m], [c]) {
      OutsideNew(fat, fat', chains[m], c);
    }
    NewChain(fat, c);
    forall m, n | 0 <= m < n < |chains'| ensures Disjoint(chains'[m], chains'[n]) { }
    forall d | 2 <= d < |fat'| ensures fat'[d] != 0 <==> InSome(chains', d) { MemberAdded(chains, c, d); }
  }

  lemma OutsideNew(fat: seq<nat>, fat': seq<nat>, chain: seq<nat>, c: nat)
    requires IsChain(fat, chain) && c < |fat| && fat[c] == 0 && fat' == fat[c := EOC]
    ensures IsChain(fat', chain) && Disjoint(chain, [c])
  {
    FreeIsOutside(fat, chain, c);
    ChainFrame(fat, fat', chain);
  }

  lemma NewChain(fat: seq<nat>, c: nat)
    requires 2 <= c < |fat|
    ensures IsChain(fat[c := EOC], [c])
  {
  }

  lemma MemberAdded(chains: seq<seq<nat>>, c: nat, d: nat)
    ensures InSome(chains + [[c]], d) <==> InSome(chains, d) || d == c
  {
    var chains' := chains + [[c]];
    if InSome(chains, d) {
      var m :| 0 <= m < |chains| && d in chains[m];
      assert d in chains'[m];
    }
    if d == c { assert d in chains'[|chains|]; }
    if d != c && InSome(chains', d) {
      var m :| 0 <= m < |chains'| && d in chains'[m];
      assert m < |chains|;
    }
  }

  // ---------------------------------------------------------------- freeing

  /** The table with the entries of `chain` cleared. */
  function Freed(fat: seq<nat>, chain: seq<nat>): (r: seq<nat>)
    ensures |r| == |fat| && forall c :: 0 <= c < |fat| ==> r[c] == if c in chain then 0 else fat[c]
  {
    seq(|fat|, c requires 0 <= c < |fat| => if c in chain then 0 else fat[c])
  }

  lemma FreedMore(fat: seq<nat>, chain: seq<nat>, n: nat)
    requires n < |chain| && chain[n] < |fat|
    ensures Freed(fat, chain[..n])[chain[n] := 0] == Freed(fat, chain[..n + 1])
  {
    assert chain[..n + 1] == chain[..n] + [chain[n]];
  }

  /** Freeing a chain frees its clusters and leaves the other chains. */
  lemma FreedPartition(fat: seq<nat>, chains: seq<seq<nat>>, k: nat)
    requires Partition(fat, chains) && k < |chains|
    ensures Partition(Freed(fat, chains[k]), chains[..k] + chains[k + 1..])
  {
    hide IsChain, InSome, Disjoint, Freed;
    var fat', rest := Freed(fat, chains[k]), chains[..k] + chains[k + 1..];
    forall m | 0 <= m < |chains| && m != k ensures IsChain(fat', chains[m]) {
      DisjointSym(chains, k, m);
      FreedFrame(fat, chains[k], chains[m]);
    }
    forall m, n | 0 <= m < n < |rest| ensures Disjoint(rest[m], rest[n]) {
      var m', n' := if m < k then m else m + 1, if n < k then n else n + 1;
      assert rest[m] == chains[m'] && rest[n] == chains[n'];
    }
    forall d | 2 <= d < |fat'| ensures fat'[d] != 0 <==> InSome(rest, d) { MemberLeft(chains, k, d); }
  }

  lemma FreedFrame(fat: seq<nat>, gone: seq<nat>, chain: seq<nat>)
    requires IsChain(fat, chain) && Disjoint(gone, chain)
    ensures IsChain(Freed(fat, gone), chain)
  {
    assert forall i :: 0 <= i < |chain| ==> chain[i] !in gone;
    ChainFrame(fat, Freed(fat, gone), chain);
  }

  lemma MemberLeft(chains: seq<seq<nat>>, k: nat, d: nat)
    requires k < |chains| && forall i, j :: 0 <= i < j < |chains| ==> Disjoint(chains[i], chains[j])
    ensures InSome(chains[..k] + chains[k + 1..], d) <==> InSome(chains, d) && d !in chains[k]
  {
    var rest := chains[..k] + chains[k + 1..];
    if InSome(rest, d) {
      var m :| 0 <= m < |rest| && d in rest[m];
      var m' := if m < k then m else m + 1;
      assert rest[m] == chains[m'] && d in chains[m'];
      DisjointSym(chains, k, m');
    }
    if InSome(chains, d) && d !in chains[k] {
      var m :| 0 <= m < |chains| && d in chains[m];
      var m' := if m < k then m else m - 1;
      assert rest[m'] == chains[m];
    }
  }
}
