/** The bytes of a file: its clusters one after the other. */
module FileContent {
  import opened Ram
  import opened FatDisk
  import opened FatChains
  import opened Fat32

  /** Every cluster of the chain is a cluster of the volume, of full size. */
  predicate Sizes(data: seq<seq<Byte>>, chain: seq<nat>, bpc: nat)
  {
    forall i :: 0 <= i < |chain| ==> chain[i] < |data| && |data[chain[i]]| == bpc
  }

  function Content(data: seq<seq<Byte>>, chain: seq<nat>): seq<Byte>
    requires forall i :: 0 <= i < |chain| ==> chain[i] < |data|
  {
    if chain == [] then [] else Content(data, chain[..|chain| - 1]) + data[chain[|chain| - 1]]
  }

  /** `src` laid over `b` from position `at` on. */
  function Splice(b: seq<Byte>, at: nat, src: seq<Byte>): (r: seq<Byte>)
    requires at + |src| <= |b|
    ensures |r| == |b|
  {
    b[..at] + src + b[at + |src|..]
  }

  lemma {:induction false} ContentLength(data: seq<seq<Byte>>, chain: seq<nat>, bpc: nat)
    requires Sizes(data, chain, bpc)
    ensures |Content(data, chain)| == Times(|chain|, bpc)
  {
    if chain != [] {
      ContentLength(data, chain[..|chain| - 1], bpc);
      TimesStep(|chain| - 1, bpc);
    }
  }

  lemma TimesStep(k: nat, n: nat)
    ensures Times(k + 1, n) == Times(k, n) + n && Times(0, n) == 0
  {
  }

  lemma TimesMonotone(a: nat, b: nat, n: nat)
    requires a <= b
    ensures Times(a, n) <= Times(b, n) && (a < b ==> Times(a, n) + n <= Times(b, n))
  {
    if a < b { MulGap(a, b, n); }
  }

  /** Cluster `k` of the chain is the `k`-th stretch of the content. */
  lemma {:induction false} ClusterSlice(data: seq<seq<Byte>>, chain: seq<nat>, bpc: nat, k: nat)
    requires Sizes(data, chain, bpc) && k < |chain|
    ensures Times(k, bpc) + bpc <= |Content(data, chain)|
    ensures Content(data, chain)[Times(k, bpc)..Times(k, bpc) + bpc] == data[chain[k]]
  {
    hide Times;
    var n := |chain| - 1;
    ContentLength(data, chain, bpc);
    ContentLength(data, chain[..n], bpc);
    TimesMonotone(k, n, bpc);
    TimesStep(n, bpc);
    if k < n {
      ClusterSlice(data, chain[..n], bpc, k);
      var c := Content(data, chain[..n]);
      assert (c + data[chain[n]])[Times(k, bpc)..Times(k, bpc) + bpc] == c[Times(k, bpc)..Times(k, bpc) + bpc];
    }
  }

  /** A change outside the chain does not show. */
  lemma {:induction false} ContentFrame(a: seq<seq<Byte>>, b: seq<seq<Byte>>, chain: seq<nat>)
    requires |a| == |b| && forall i :: 0 <= i < |chain| ==> chain[i] < |a| && a[chain[i]] == b[chain[i]]
    ensures Content(a, chain) == Content(b, chain)
  {
    if chain != [] { ContentFrame(a, b, chain[..|chain| - 1]); }
  }

  lemma SpliceEnd(c: seq<Byte>, d: seq<Byte>, bytes: seq<Byte>)
    requires |d| == |bytes|
    ensures Splice(c + d, |c|, bytes) == c + bytes
  {
  }

  /** Rewriting one cluster of the chain. */
  lemma {:induction false} ContentWrite(data: seq<seq<Byte>>, chain: seq<nat>, bpc: nat, k: nat, bytes: seq<Byte>)
    requires Sizes(data, chain, bpc) && DistinctClusters(chain) && k < |chain| && |bytes| == bpc
    ensures Times(k, bpc) + bpc <= |Content(data, chain)|
    ensures Content(data[chain[k] := bytes], chain) == Splice(Content(data, chain), Times(k, bpc), bytes)
  {
    hide Times, Splice;
    var n, data' := |chain| - 1, data[chain[k] := bytes];
    ClusterSlice(data, chain, bpc, k);
    ContentLength(data, chain, bpc);
    ContentLength(data, chain[..n], bpc);
    TimesStep(n, bpc);
    var c := Content(data, chain[..n]);
    if k == n {
      ContentFrame(data, data', chain[..n]);
      SpliceEnd(c, data[chain[n]], bytes);
    } else {
      TimesMonotone(k, n, bpc);
      ContentWrite(data, chain[..n], bpc, k, bytes);
      assert chain[..n][k] == chain[k] && chain[n] != chain[k];
      SpliceLonger(c, Times(k, bpc), bytes, data[chain[n]]);
    }
  }

  /** Writing part of a cluster is writing that part of the content. */
  lemma PartialWrite(data: seq<seq<Byte>>, chain: seq<nat>, bpc: nat, k: nat, at: nat, part: seq<Byte>)
    requires Sizes(data, chain, bpc) && DistinctClusters(chain) && k < |chain| && at + |part| <= bpc
    ensures Times(k, bpc) + at + |part| <= |Content(data, chain)|
    ensures Content(data[chain[k] := Splice(data[chain[k]], at, part)], chain) ==
              Splice(Content(data, chain), Times(k, bpc) + at, part)
  {
    hide Times, Content;
    ClusterSlice(data, chain, bpc, k);
    ContentWrite(data, chain, bpc, k, Splice(data[chain[k]], at, part));
    SpliceInside(Content(data, chain), Times(k, bpc), bpc, at, part);
  }

  lemma SpliceInside(c: seq<Byte>, start: nat, n: nat, at: nat, part: seq<Byte>)
    requires start + n <= |c| && at + |part| <= n
    ensures Splice(c, start, Splice(c[start..start + n], at, part)) == Splice(c, start + at, part)
  {
  }

  /** Two adjoining pieces are one. */
  lemma SpliceTwice(b: seq<Byte>, at: nat, s: seq<Byte>, t: seq<Byte>)
    requires at + |s| + |t| <= |b|
    ensures Splice(Splice(b, at, s), at + |s|, t) == Splice(b, at, s + t)
  {
  }

  lemma SpliceLonger(b: seq<Byte>, at: nat, s: seq<Byte>, more: seq<Byte>)
    requires at + |s| <= |b|
    ensures Splice(b + more, at, s) == Splice(b, at, s) + more
  {
  }

  /** A cleared cluster at the end of the chain. */
  lemma ContentAppend(data: seq<seq<Byte>>, chain: seq<nat>, c: nat, bytes: seq<Byte>)
    requires (forall i :: 0 <= i < |chain| ==> chain[i] < |data|) && c < |data| && c !in chain
    ensures Content(data[c := bytes], chain + [c]) == Content(data, chain) + bytes
  {
    assert (chain + [c])[..|chain|] == chain;
    ContentFrame(data, data[c := bytes], chain);
  }

  lemma {:induction false} ZerosAdd(a: nat, b: nat)
    ensures Zeros(a) + Zeros(b) == Zeros(a + b)
  {
    if b > 0 { ZerosAdd(a, b - 1); }
  }
}
