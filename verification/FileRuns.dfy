/** Any sequence of operations on any number of files of one volume: each file behaves as a byte array of its own,
    and the FAT stays a set of disjoint chains. */
module FileRuns {
  import opened Ram
  import opened FatDisk
  import opened FatChains
  import opened Fat32
  import opened FileContent
  import opened Fat32Files
  import opened Fat32Nodes
  import opened FileTheorems

  // ---------------------------------------------------------------- one operation seen by another file

  /** From `a` to `v` an operation on the file with chain `ca`, now `cb`, touched its own clusters, clusters that were
      free, and its directory entry's cluster. */
  ghost predicate Disturbs(a: Volume, v: Volume, ca: seq<nat>, cb: seq<nat>, dir: nat, n: nat, bpc: nat)
  {
    && Shaped(a, n, bpc) && Shaped(v, n, bpc)
    && (forall i :: 0 <= i < |cb| ==> 2 <= cb[i] < n && (cb[i] in ca || a.fat[cb[i]] == 0))
    && (forall c :: 2 <= c < n && c !in ca && c !in cb ==>
         v.fat[c] == a.fat[c] && (c != dir ==> v.data[c] == a.data[c]))
  }

  lemma WriteDisturbs(a: Volume, ca: seq<nat>, mid: Volume, v: Volume, cb: seq<nat>, n: nat, bpc: nat, offset: nat,
                      src: seq<Byte>, dir: nat, at: nat, size: int, first: int)
    requires Writing(a, ca, mid, cb, n, bpc, offset, src) && (v == mid || Patches(mid, v, dir, at, size, first))
             && Shaped(v, n, bpc)
    requires forall i :: 0 <= i < |ca| ==> 2 <= ca[i] < n
    ensures Disturbs(a, v, ca, cb, dir, n, bpc)
  {
    hide Content, Times, Shows, DirPatched;
    forall i | 0 <= i < |cb| ensures 2 <= cb[i] < n && (cb[i] in ca || a.fat[cb[i]] == 0) {
      if i < |ca| { assert cb[i] == ca[i]; }
    }
  }

  lemma TruncateDisturbs(a: Volume, v: Volume, ca: seq<nat>, n: nat, bpc: nat, dir: nat, at: nat, size: int, first: int)
    requires Shaped(a, n, bpc) && Shaped(v, n, bpc)
             && Patches(Volume(Freed(a.fat, ca), a.data), v, dir, at, size, first)
    ensures Disturbs(a, v, ca, [], dir, n, bpc)
  {
    hide DirPatched;
  }

  /** Another file stays in place, keeps its bytes, and stays apart. */
  lemma OtherFileStays(a: Volume, v: Volume, ca: seq<nat>, cb: seq<nat>, dir: nat, n: nat, bpc: nat, first: nat,
                       chain: seq<nat>, size: int, dirCluster: nat, dirOffset: nat)
    requires Disturbs(a, v, ca, cb, dir, n, bpc) && Placed(a, n, bpc, first, chain, size, dirCluster, dirOffset)
    requires Disjoint(ca, chain) && dir !in chain && dirCluster !in ca
    ensures Placed(v, n, bpc, first, chain, size, dirCluster, dirOffset)
    ensures Sizes(a.data, chain, bpc) && Sizes(v.data, chain, bpc) && Content(v.data, chain) == Content(a.data, chain)
    ensures Disjoint(cb, chain) && dirCluster !in cb
  {
    hide Content, Times;
    ChainClusters(a.fat, first, chain);
    forall i | 0 <= i < |chain| ensures chain[i] !in cb && chain[i] !in ca {
      forall j | 0 <= j < |cb| ensures cb[j] != chain[i] { }
    }
    if first >= 2 { ChainFrame(a.fat, v.fat, chain); }
    ContentFrame(a.data, v.data, chain);
  }

  /** Of the cluster `dir` only fields of the entry at `at` differ. */
  ghost predicate EntryOnly(a: Volume, v: Volume, dir: nat, at: nat)
  {
    && dir < |a.data| && dir < |v.data| && |v.data[dir]| == |a.data[dir]|
    && forall k :: 0 <= k < |a.data[dir]| && !(at <= k < at + DIR_ENTRY) ==> v.data[dir][k] == a.data[dir][k]
  }

  /** What an operation on one file leaves of the volume. */
  ghost predicate OneFile(a: Volume, v: Volume, ca: seq<nat>, cb: seq<nat>, n: nat, bpc: nat, dir: nat, at: nat,
                          chains: seq<seq<nat>>, chains': seq<seq<nat>>)
  {
    && Disturbs(a, v, ca, cb, dir, n, bpc) && EntryOnly(a, v, dir, at)
    && Partition(v.fat, chains') && Listed(cb, chains') && forall c :: c in chains && c != ca ==> c in chains'
  }

  predicate Listed(chain: seq<nat>, chains: seq<seq<nat>>)
  {
    chain == [] || chain in chains
  }

  predicate EntriesApart(c: nat, at: nat, c': nat, at': nat)
  {
    c == c' ==> at + DIR_ENTRY <= at' || at' + DIR_ENTRY <= at
  }

  /** Everything another file may rely on. */
  lemma OthersKept(a: Volume, v: Volume, ca: seq<nat>, cb: seq<nat>, n: nat, bpc: nat, dir: nat, at: nat,
                   chains: seq<seq<nat>>, chains': seq<seq<nat>>,
                   first: nat, chain: seq<nat>, size: nat, dirCluster: nat, dirOffset: nat)
    requires OneFile(a, v, ca, cb, n, bpc, dir, at, chains, chains')
             && Placed(a, n, bpc, first, chain, size, dirCluster, dirOffset)
    requires Listed(chain, chains) && Disjoint(ca, chain) && dir !in chain && dirCluster !in ca
             && EntriesApart(dir, at, dirCluster, dirOffset)
    ensures Placed(v, n, bpc, first, chain, size, dirCluster, dirOffset) && Listed(chain, chains')
    ensures Disjoint(cb, chain) && Disjoint(chain, cb) && dirCluster !in cb
    ensures Inside(a, chain) && Inside(v, chain) && Content(v.data, chain) == Content(a.data, chain)
    ensures forall e: nat {:trigger Recorded(v, dirCluster, dirOffset, size, e)} ::
              Recorded(a, dirCluster, dirOffset, size, e) <==> Recorded(v, dirCluster, dirOffset, size, e)
  {
    hide Content, Times, Placed, Partition, Recorded, Disturbs, EntryOnly;
    OtherFileStays(a, v, ca, cb, dir, n, bpc, first, chain, size, dirCluster, dirOffset);
    DisjointBoth(cb, chain);
    if chain != [] { assert chain != ca by { DisjointDiffer(ca, chain); } }
    RecordKept(a, v, ca, cb, n, bpc, dir, at, first, chain, size, dirCluster, dirOffset);
  }

  lemma DisjointDiffer(a: seq<nat>, b: seq<nat>)
    requires Disjoint(a, b) && b != []
    ensures a != b
  {
    assert a != [] ==> a[0] != b[0];
  }

  lemma RecordKept(a: Volume, v: Volume, ca: seq<nat>, cb: seq<nat>, n: nat, bpc: nat, dir: nat, at: nat, first: nat,
                   chain: seq<nat>, size: nat, dirCluster: nat, dirOffset: nat)
    requires Disturbs(a, v, ca, cb, dir, n, bpc) && EntryOnly(a, v, dir, at)
             && Placed(a, n, bpc, first, chain, size, dirCluster, dirOffset)
    requires dirCluster !in ca && dirCluster !in cb && EntriesApart(dir, at, dirCluster, dirOffset)
    ensures forall e: nat {:trigger Recorded(v, dirCluster, dirOffset, size, e)} ::
              Recorded(a, dirCluster, dirOffset, size, e) <==> Recorded(v, dirCluster, dirOffset, size, e)
  {
    if dirCluster == dir {
      assert forall k :: dirOffset <= k < dirOffset + DIR_ENTRY ==> v.data[dir][k] == a.data[dir][k];
      SameEntry(a.data[dir], v.data[dir], dirOffset);
    }
  }

  lemma SameEntry(s: seq<Byte>, t: seq<Byte>, at: nat)
    requires |s| == |t| && at + DIR_ENTRY <= |s| && forall k :: at <= k < at + DIR_ENTRY ==> t[k] == s[k]
    ensures RecordedSize(t, at) == RecordedSize(s, at) && RecordedFirst(t, at) == RecordedFirst(s, at)
  {
  }

  lemma DisjointBoth(a: seq<nat>, b: seq<nat>)
    requires Disjoint(a, b)
    ensures Disjoint(b, a)
  {
  }

  lemma PatchEntryOnly(mid: Volume, v: Volume, dir: nat, at: nat, size: int, first: int)
    requires Patches(mid, v, dir, at, size, first)
    ensures EntryOnly(mid, v, dir, at)
  {
    hide DirPatched;
    EntryRecorded(mid.data[dir], at, size, first);
  }

  lemma ChainClusters(fat: seq<nat>, first: nat, chain: seq<nat>)
    requires Leads(fat, first, chain)
    ensures forall i :: 0 <= i < |chain| ==> 2 <= chain[i] < |fat| && fat[chain[i]] != 0
  {
    forall i | 0 <= i < |chain| ensures 2 <= chain[i] < |fat| && fat[chain[i]] != 0 {
      if i < |chain| - 1 { assert fat[chain[i]] == chain[i + 1]; }
    }
  }

  // ---------------------------------------------------------------- an array of byte arrays

  /** A file as its user sees it, with the clusters it occupies. */
  datatype Array = Array(bytes: seq<Byte>, clusters: nat)

  /** The files of a volume and the clusters left. */
  datatype Store = Store(files: seq<Array>, free: nat, bpc: nat)

  datatype Operation =
    | ReadAt(file: nat, offset: nat, count: nat) | WriteAt(file: nat, offset: nat, src: seq<Byte>) | Clear(file: nat)

  /** What a call returns, and the bytes it delivers. */
  datatype Result = Result(n: int, bytes: seq<Byte>)

  /** Reads whose window does not wrap, writes that end below 4 GiB. */
  predicate Sensible(op: Operation, files: nat)
  {
    && op.file < files && (op.ReadAt? ==> op.offset + op.count < TWO64)
       && (op.WriteAt? ==> op.offset + |op.src| < SIZE_LIMIT)
  }

  lemma GrownFits(clusters: nat, free: nat, bpc: nat, at: nat, want: nat)
    requires bpc > 0 && want > 0
    ensures clusters <= GrownTo(clusters, free, bpc, at, want) <= clusters + free
  {
    hide Times;
    var n := Accepted(clusters, free, bpc, at, want);
    if n != -1 {
      var q := (at + n - 1) / bpc;
      Euclid(at + n - 1, bpc);
      if q + 1 > clusters + free { TimesMonotone(clusters + free, q, bpc); }
    }
  }

  /** One operation on the arrays. */
  function Next(s: Store, op: Operation): (r: (Store, Result))
    requires s.bpc > 0 && op.file < |s.files|
    ensures |r.0.files| == |s.files| && r.0.bpc == s.bpc
  {
    var f := s.files[op.file];
    match op
    case ReadAt(_, offset, count) =>
      var w := Window(f.bytes, offset, count);
      (s, Result(|w|, w))
    case Clear(i) => (s.(files := s.files[i := Array([], 0)], free := s.free + f.clusters), Result(0, []))
    case WriteAt(i, offset, src) =>
      if src == [] then (s, Result(0, []))
      else
        GrownFits(f.clusters, s.free, s.bpc, offset, |src|);
        var n, c := Accepted(f.clusters, s.free, s.bpc, offset, |src|),
                    GrownTo(f.clusters, s.free, s.bpc, offset, |src|);
        var bytes := if n == -1 then f.bytes else Overlay(f.bytes, [], offset, src[..n]);
        (s.(files := s.files[i := Array(bytes, c)], free := s.free + f.clusters - c), Result(n, []))
  }

  /** A whole run on the arrays. */
  function Run(s: Store, ops: seq<Operation>): (r: (Store, seq<Result>))
    requires s.bpc > 0 && forall k :: 0 <= k < |ops| ==> ops[k].file < |s.files|
    ensures |r.0.files| == |s.files| && r.0.bpc == s.bpc && |r.1| == |ops|
  {
    if ops == [] then (s, [])
    else
      var before := Run(s, ops[..|ops| - 1]);
      var now := Next(before.0, ops[|ops| - 1]);
      (now.0, before.1 + [now.1])
  }

  // ---------------------------------------------------------------- files side by side

  /** A file on the volume: its bytes, what its last clusters hold beyond them, and its length in clusters. */
  datatype FileView = FileView(bytes: seq<Byte>, slack: seq<Byte>, clusters: nat)

  ghost function ViewOf(v: Volume, chain: seq<nat>, size: nat): FileView
    requires Inside(v, chain) && size <= |Content(v.data, chain)|
  {
    FileView(Content(v.data, chain)[..size], Content(v.data, chain)[size..], |chain|)
  }

  /** Files of one volume, one vnode each, that share no cluster and no directory entry; every used cluster of the
      volume belongs to exactly one of `chains`, theirs among them. */
  ghost predicate Together(nodes: seq<Fat32VNode>, fs: Fat32Filesystem, chains: seq<seq<nat>>)
    reads fs, fs.dev, set i | 0 <= i < |nodes| :: nodes[i]
  {
    && fs.Valid() && Partition(fs.Fat(), chains)
    && (forall i :: 0 <= i < |nodes| ==>
         nodes[i].fs == fs && nodes[i].isFile && NodeOk(nodes[i], fs) && Listed(nodes[i].chain, chains))
    && (forall i, j :: 0 <= i < |nodes| && 0 <= j < |nodes| && i != j ==>
         nodes[i] != nodes[j] && NodesApart(nodes[i], nodes[j]))
  }

  ghost predicate NodeOk(node: Fat32VNode, fs: Fat32Filesystem)
    reads fs, fs.dev, node
    requires fs.Valid()
  {
    Placed(Vol(fs), fs.g.total + 2, fs.g.ClusterBytes(), node.firstCluster, node.chain, node.fileSize, node.dirCluster,
      node.dirOffset)
  }

  ghost predicate NodesApart(a: Fat32VNode, b: Fat32VNode)
    reads a, b
  {
    Disjoint(a.chain, b.chain) && a.dirCluster !in b.chain
    && EntriesApart(a.dirCluster, a.dirOffset, b.dirCluster, b.dirOffset)
  }

  ghost function FileOf(node: Fat32VNode, fs: Fat32Filesystem): FileView
    reads fs, fs.dev, node
    requires fs.Valid() && NodeOk(node, fs)
  {
    PlacedInside(Vol(fs), fs.g.total + 2, fs.g.ClusterBytes(), node.firstCluster, node.chain, node.fileSize,
      node.dirCluster, node.dirOffset);
    ViewOf(Vol(fs), node.chain, node.fileSize)
  }

  lemma PlacedInside(v: Volume, n: nat, bpc: nat, first: nat, chain: seq<nat>, size: int, dirCluster: nat,
                     dirOffset: nat)
    requires Placed(v, n, bpc, first, chain, size, dirCluster, dirOffset)
    ensures Inside(v, chain) && 0 <= size <= |Content(v.data, chain)|
  {
    FileFits(v, n, bpc, first, chain, size, dirCluster, dirOffset);
  }

  /** The directory entry on disk agrees with the vnode. */
  ghost predicate OnRecord(node: Fat32VNode, fs: Fat32Filesystem)
    reads fs, fs.dev, node
    requires fs.Valid()
  {
    Recorded(Vol(fs), node.dirCluster, node.dirOffset, node.fileSize, node.firstCluster)
  }

  ghost predicate EntryOf(node: Fat32VNode, fs: Fat32Filesystem, e: Entry)
    reads fs, fs.dev, node
    requires fs.Valid()
  {
    EntryStands(Vol(fs), node.dirCluster, node.dirOffset, node.fileSize, node.firstCluster, e)
  }

  // ---------------------------------------------------------------- one operation

  /** The bytes of the file operated on, whatever its last clusters held before. */
  function Applied(f: FileView, op: Operation, n: int): seq<Byte>
    requires op.WriteAt? ==> n <= |op.src|
  {
    match op
    case ReadAt(_, _, _) => f.bytes
    case Clear(_) => []
    case WriteAt(_, offset, src) => if n <= 0 then f.bytes else Overlay(f.bytes, f.slack, offset, src[..n])
  }

  /** The bytes of a chain of `clusters`, after cleared clusters joined it. */
  function Whole(f: FileView, clusters: nat, bpc: nat): seq<Byte>
    requires f.clusters <= clusters
  {
    f.bytes + f.slack + Zeros(Times(clusters - f.clusters, bpc))
  }

  /** The chain of `f'` is that of `f`, grown, with `data` laid over it at `offset`. */
  predicate Laid(f: FileView, f': FileView, bpc: nat, offset: nat, data: seq<Byte>)
  {
    && f.clusters <= f'.clusters && offset + |data| <= |Whole(f, f'.clusters, bpc)|
    && f'.bytes + f'.slack == Splice(Whole(f, f'.clusters, bpc), offset, data)
  }

  /** Everything an operation does to its own file, and what it returns: the outcome follows from the length of the
      chain and the number of free clusters. */
  predicate Effect(f: FileView, free: nat, f': FileView, free': nat, bpc: nat, op: Operation, r: Result)
  {
    && (op.WriteAt? ==> r.n <= |op.src|) && f'.bytes == Applied(f, op, r.n) && (AllZero(f.slack) ==> AllZero(f'.slack))
    && f'.clusters + free' == f.clusters + free && bpc > 0
    && match op
       case ReadAt(_, offset, count) => f' == f && r == Result(|r.bytes|, Window(f.bytes, offset, count))
       case Clear(_) => f'.clusters == 0 && f'.slack == [] && r == Result(0, [])
       case WriteAt(_, offset, src) =>
         && r.bytes == []
         && if src == [] then f' == f && r.n == 0
            else
              && r.n == Accepted(f.clusters, free, bpc, offset, |src|)
                 && f'.clusters == GrownTo(f.clusters, free, bpc, offset, |src|)
              && (r.n <= 0 ==> Laid(f, f', bpc, 0, []))
              && (r.n > 0 ==> Laid(f, f', bpc, offset, src[..r.n]) && |f'.bytes| == Larger(|f.bytes|, offset + r.n))
  }

  /** The effect is determined: nothing about the file is left open, its slack included. */
  lemma EffectDetermined(f: FileView, free: nat, f1: FileView, free1: nat, f2: FileView, free2: nat, bpc: nat,
                         op: Operation, r1: Result, r2: Result)
    requires Effect(f, free, f1, free1, bpc, op, r1) && Effect(f, free, f2, free2, bpc, op, r2)
    ensures f1 == f2 && free1 == free2 && r1 == r2
  {
    hide Accepted, GrownTo, Overlay, Window, Zeros, Splice, Times;
    if op.WriteAt? && op.src != [] {
      assert f1.bytes == f2.bytes;
      assert f1.slack == (f1.bytes + f1.slack)[|f1.bytes|..] && f2.slack == (f2.bytes + f2.slack)[|f2.bytes|..];
    }
  }

  // ---------------------------------------------------------------- directory entries

  /** How a file's directory entry stands: it records size and first cluster (and whether that is the reserved number
      1); it records none while the file has one; or nothing is known. */
  datatype Entry = Agrees(one: bool) | Lost | Unknown

  ghost predicate EntryStands(v: Volume, dir: nat, at: nat, size: nat, first: nat, e: Entry)
  {
    match e
    case Agrees(one) => Recorded(v, dir, at, size, first) && (one <==> first == 1)
    case Lost => (Recorded(v, dir, at, size, 0) && first >= 2) || (Recorded(v, dir, at, size, 1) && first != 1)
    case Unknown => true
  }

  /** What becomes of it: only a refused write to a file without clusters that could take some loses it, and the next
      success restores it. */
  function EntryAfter(e: Entry, clusters: nat, free: nat, bpc: nat, op: Operation, n: int): Entry
  {
    match op
    case ReadAt(_, _, _) => e
    case Clear(_) => if e.Lost? then Agrees(false) else e
    case WriteAt(_, offset, src) =>
      if src == [] then e
      else if n > 0 then Agrees(false)
      else if e.Agrees? && clusters == 0 && (free > 0 || e.one) then Lost
      else if e.Agrees? then Agrees(false)
      else e
  }

  /** A refused write leaves the entry's bytes alone. */
  lemma RefusedRecord(a: Volume, ca: seq<nat>, v: Volume, cb: seq<nat>, n: nat, bpc: nat, first: nat, first': nat,
                      size: nat, dir: nat, at: nat, op: Operation, e: Entry)
    requires Writing(a, ca, v, cb, n, bpc, 0, []) && Placed(a, n, bpc, first, ca, size, dir, at)
             && Placed(v, n, bpc, first', cb, size, dir, at)
    requires op.WriteAt? && op.src != [] && Decided(a, ca, cb, -1, bpc, op.offset, |op.src|) && first' != 1
             && EntryStands(a, dir, at, size, first, e)
    requires Recorded(a, dir, at, size, first) ==>
               (Recorded(v, dir, at, size, first') <==> !LosesFirst(first, |FreeClusters(a.fat)|, bpc, op.offset))
    ensures EntryStands(v, dir, at, size, first', EntryAfter(e, |ca|, |FreeClusters(a.fat)|, bpc, op, -1))
  {
    hide Content, FreeClusters, IsChain, Shows, Recorded, Times;
    DirKept(a, ca, v, cb, n, bpc, 0, [], dir, at);
    SameRecord(a, v, dir, at, size);
    EmptyExactly(a.fat, first, ca);
    EmptyExactly(v.fat, first', cb);
  }

  lemma EmptyExactly(fat: seq<nat>, first: nat, chain: seq<nat>)
    requires Leads(fat, first, chain)
    ensures first < 2 <==> chain == []
  {
  }

  lemma SameRecord(a: Volume, v: Volume, dir: nat, at: nat, size: nat)
    requires dir < |a.data| && dir < |v.data| && v.data[dir] == a.data[dir]
    ensures forall e: nat {:trigger Recorded(v, dir, at, size, e)} :: Recorded(v, dir, at, size, e) <==>
              Recorded(a, dir, at, size, e)
  {
  }

  lemma IdleEntries(clusters: nat, free: nat, bpc: nat, op: Operation, n: int)
    requires op.ReadAt? || (op.WriteAt? && op.src == [])
    ensures forall e {:trigger EntryAfter(e, clusters, free, bpc, op, n)} ::
              EntryAfter(e, clusters, free, bpc, op, n) == e
  {
  }

  lemma WrittenEntries(a: Volume, ca: seq<nat>, v: Volume, cb: seq<nat>, n: nat, bpc: nat, first: nat, first': nat,
                       size: nat, size': nat, dir: nat, at: nat, op: Operation, written: int)
    requires op.WriteAt? && op.src != [] && first' != 1 && (written == -1 || written > 0)
    requires written > 0 ==> Recorded(v, dir, at, size', first')
    requires written == -1 ==>
               && size' == size && Writing(a, ca, v, cb, n, bpc, 0, []) && Placed(a, n, bpc, first, ca, size, dir, at)
                  && Placed(v, n, bpc, first', cb, size, dir, at)
               && Decided(a, ca, cb, -1, bpc, op.offset, |op.src|)
    requires Recorded(a, dir, at, size, first) ==>
               (Recorded(v, dir, at, size', first') <==> !LosesFirst(first, |FreeClusters(a.fat)|, bpc, op.offset))
    ensures forall e :: EntryStands(a, dir, at, size, first, e) ==>
              EntryStands(v, dir, at, size', first', EntryAfter(e, |ca|, |FreeClusters(a.fat)|, bpc, op, written))
  {
    hide Writing, Placed, Decided, LosesFirst, FreeClusters, Recorded;
    forall e | EntryStands(a, dir, at, size, first, e)
      ensures EntryStands(v, dir, at, size', first', EntryAfter(e, |ca|, |FreeClusters(a.fat)|, bpc, op, written))
    {
      if written == -1 { RefusedRecord(a, ca, v, cb, n, bpc, first, first', size, dir, at, op, e); }
    }
  }

  lemma ClearedRecord(v: Volume, dir: nat, at: nat, size: nat, first: nat, a: Volume, first': nat, clusters: nat,
                      free: nat, bpc: nat, op: Operation, n: int, e: Entry)
    requires EntryStands(a, dir, at, size, first, e) && Recorded(v, dir, at, 0, first') && op.Clear?
             && first' == (if first >= 2 then 0 else first)
    ensures EntryStands(v, dir, at, 0, first', EntryAfter(e, clusters, free, bpc, op, n))
  {
    hide Recorded;
  }

  /** One operation on one file of the volume. */
  method Act(node: Fat32VNode, fs: Fat32Filesystem, op: Operation, ghost chains: seq<seq<nat>>)
    returns (r: Result, ghost chains': seq<seq<nat>>)
    requires fs.Valid() && node.fs == fs && node.isFile && NodeOk(node, fs)
    requires Partition(fs.Fat(), chains) && Listed(node.chain, chains) && Sensible(op, op.file + 1)
    modifies node`firstCluster, node`fileSize, node`chain, fs.dev
    ensures fs.Valid() && NodeOk(node, fs)
    ensures OneFile(old(Vol(fs)), Vol(fs), old(node.chain), node.chain, fs.g.total + 2, fs.g.ClusterBytes(),
              node.dirCluster, node.dirOffset, chains, chains')
    ensures Effect(old(FileOf(node, fs)), old(|FreeClusters(fs.Fat())|), FileOf(node, fs), |FreeClusters(fs.Fat())|,
              fs.g.ClusterBytes(), op, r)
    ensures forall e :: old(EntryOf(node, fs, e)) ==>
              EntryOf(node, fs,
                EntryAfter(e, old(|node.chain|), old(|FreeClusters(fs.Fat())|), fs.g.ClusterBytes(), op, r.n))
    ensures op.Clear? || (op.WriteAt? && r.n > 0) ==> OnRecord(node, fs)
    ensures old(OnRecord(node, fs)) ==>
              (OnRecord(node, fs) <==>
                !(op.WriteAt? && op.src != []
                && LosesFirst(old(node.firstCluster), old(|FreeClusters(fs.Fat())|), fs.g.ClusterBytes(), op.offset)))
  {
    hide Placed, Writing, Patches, Content, CopiesAgree, Full, Partition, Listed, Effect, Recorded, FreeClusters,
         OneFile, LosesFirst, Decided, EntryAfter, EntryStands;
    ghost var a, ca, first, size := Vol(fs), node.chain, node.firstCluster, node.fileSize;
    ghost var n, bpc := fs.g.total + 2, fs.g.ClusterBytes();
    PlacedInside(a, n, bpc, first, ca, size, node.dirCluster, node.dirOffset);
    match op {
      case ReadAt(_, offset, count) =>
        var m, bytes := node.Read(offset, count);
        r, chains' := Result(m, bytes), chains;
        ReadSeen(a, ca, n, bpc, op, bytes, first, size, node.dirCluster, node.dirOffset, chains);
        IdleEntries(|ca|, |FreeClusters(a.fat)|, bpc, op, m);
      case WriteAt(_, offset, src) =>
        var written;
        ghost var mid;
        SizeBelow(node);
        written, mid := node.Write(offset, src);
        r := Result(written, []);
        if src != [] { InPlaceExactly(offset, |src|, size, bpc); }
        if src != [] && written > 0 { InPlaceExactly(offset, written, size, bpc); }
        chains' :=
          WriteSeen(a, ca, mid, Vol(fs), node.chain, n, bpc, op, written, first, size, node.firstCluster, node.fileSize,
            node.dirCluster, node.dirOffset, chains);
        if src == [] {
          IdleEntries(|ca|, |FreeClusters(a.fat)|, bpc, op, written);
        } else {
          WrittenEntries(a, ca, Vol(fs), node.chain, n, bpc, first, node.firstCluster, size, node.fileSize,
            node.dirCluster, node.dirOffset, op, written);
        }
      case Clear(_) =>
        var status := node.TruncateToZero();
        r := Result(status, []);
        chains' :=
          ClearSeen(a, ca, Vol(fs), n, bpc, op, first, size, node.firstCluster, node.dirCluster, node.dirOffset,
            chains);
        forall e | EntryStands(a, node.dirCluster, node.dirOffset, size, first, e)
          ensures EntryStands(Vol(fs), node.dirCluster, node.dirOffset, 0, node.firstCluster,
                    EntryAfter(e, |ca|, |FreeClusters(a.fat)|, bpc, op, status))
        {
          ClearedRecord(Vol(fs), node.dirCluster, node.dirOffset, size, first, a, node.firstCluster, |ca|,
            |FreeClusters(a.fat)|, bpc, op, status, e);
        }
    }
  }

  /** One operation: it has its effect on its own file; every other file keeps its bytes, its clusters and its
      directory entry; and the FAT is still a set of disjoint chains. */
  method Perform(nodes: seq<Fat32VNode>, fs: Fat32Filesystem, op: Operation, ghost chains: seq<seq<nat>>)
    returns (r: Result, ghost chains': seq<seq<nat>>)
    requires Together(nodes, fs, chains) && Sensible(op, |nodes|)
    modifies nodes[op.file], fs.dev
    ensures Together(nodes, fs, chains')
    ensures Effect(old(FileOf(nodes[op.file], fs)), old(|FreeClusters(fs.Fat())|), FileOf(nodes[op.file], fs),
              |FreeClusters(fs.Fat())|, fs.g.ClusterBytes(), op, r)
    ensures forall j :: 0 <= j < |nodes| && j != op.file ==> FileOf(nodes[j], fs) == old(FileOf(nodes[j], fs))
    ensures forall e :: old(EntryOf(nodes[op.file], fs, e)) ==>
              EntryOf(nodes[op.file], fs,
                EntryAfter(e, old(|nodes[op.file].chain|), old(|FreeClusters(fs.Fat())|), fs.g.ClusterBytes(), op, r.n))
    ensures forall j, e :: 0 <= j < |nodes| && j != op.file && old(EntryOf(nodes[j], fs, e)) ==>
              EntryOf(nodes[j], fs, e)
  {
    hide Placed, Content, Disjoint, Partition, Listed, Effect, Recorded, FreeClusters, EntriesApart, OneFile,
         CopiesAgree, FatOf, DataOf, Geometry.Fits, EntryAfter, LosesFirst;
    var node := nodes[op.file];
    ghost var a, ca := Vol(fs), node.chain;
    ghost var n, bpc := fs.g.total + 2, fs.g.ClusterBytes();
    assert NodeOk(node, fs) && Listed(ca, chains);
    r, chains' := Act(node, fs, op, chains);
    OneFileListed(a, Vol(fs), ca, node.chain, n, bpc, node.dirCluster, node.dirOffset, chains, chains');
    forall j | 0 <= j < |nodes| && j != op.file
      ensures NodeOk(nodes[j], fs) && Listed(nodes[j].chain, chains') && NodesApart(nodes[j], node)
              && NodesApart(node, nodes[j])
      ensures FileOf(nodes[j], fs) == old(FileOf(nodes[j], fs)) && forall e :: old(EntryOf(nodes[j], fs, e)) ==>
                EntryOf(nodes[j], fs, e)
    {
      var other := nodes[j];
      assert old(NodeOk(other, fs) && Listed(other.chain, chains) && NodesApart(other, node)
               && NodesApart(node, other));
      OthersKept(a, Vol(fs), ca, node.chain, n, bpc, node.dirCluster, node.dirOffset, chains, chains',
                 other.firstCluster, other.chain, other.fileSize, other.dirCluster, other.dirOffset);
      EntriesStand(a, Vol(fs), other.dirCluster, other.dirOffset, other.fileSize, other.firstCluster);
    }
  }

  lemma EntriesStand(a: Volume, v: Volume, dir: nat, at: nat, size: nat, first: nat)
    requires forall e: nat {:trigger Recorded(v, dir, at, size, e)} :: Recorded(a, dir, at, size, e) <==>
               Recorded(v, dir, at, size, e)
    ensures forall e :: EntryStands(a, dir, at, size, first, e) ==> EntryStands(v, dir, at, size, first, e)
  {
    hide Recorded;
  }

  lemma OneFileListed(a: Volume, v: Volume, ca: seq<nat>, cb: seq<nat>, n: nat, bpc: nat, dir: nat, at: nat,
                      chains: seq<seq<nat>>, chains': seq<seq<nat>>)
    requires OneFile(a, v, ca, cb, n, bpc, dir, at, chains, chains')
    ensures Partition(v.fat, chains') && Listed(cb, chains')
  {
  }

  // ---------------------------------------------------------------- what the operations leave behind

  lemma PlacedShaped(v: Volume, n: nat, bpc: nat, first: nat, chain: seq<nat>, size: int, dirCluster: nat,
                     dirOffset: nat)
    requires Placed(v, n, bpc, first, chain, size, dirCluster, dirOffset)
    ensures Shaped(v, n, bpc) && bpc > 0 && (forall i :: 0 <= i < |chain| ==> 2 <= chain[i] < n)
    ensures chain != [] ==> IsChain(v.fat, chain)
    ensures dirCluster < |v.data| && dirCluster !in chain
  {
    ChainClusters(v.fat, first, chain);
  }

  lemma ReadSeen(a: Volume, ca: seq<nat>, n: nat, bpc: nat, op: Operation, bytes: seq<Byte>, first: nat, size: nat,
                 dir: nat, at: nat, chains: seq<seq<nat>>)
    requires Placed(a, n, bpc, first, ca, size, dir, at) && Partition(a.fat, chains) && Listed(ca, chains) && op.ReadAt?
    requires Inside(a, ca) && size <= |Content(a.data, ca)|
             && bytes == Window(Content(a.data, ca)[..size], op.offset, op.count)
    ensures OneFile(a, a, ca, ca, n, bpc, dir, at, chains, chains)
    ensures var f, free := ViewOf(a, ca, size), |FreeClusters(a.fat)|;
            Effect(f, free, f, free, bpc, op, Result(|bytes|, bytes))
  {
    hide Placed, Partition, Content, FreeClusters, Window;
    PlacedShaped(a, n, bpc, first, ca, size, dir, at);
  }

  /** A write, seen as a whole: accepted, refused, or with nothing to do. */
  lemma WriteSeen(a: Volume, ca: seq<nat>, mid: Volume, v: Volume, cb: seq<nat>, n: nat, bpc: nat, op: Operation,
                  written: int, first: nat, size: nat, first': nat, size': nat, dir: nat, at: nat,
                  chains: seq<seq<nat>>)
    returns (chains': seq<seq<nat>>)
    requires Placed(a, n, bpc, first, ca, size, dir, at) && Placed(v, n, bpc, first', cb, size', dir, at)
    requires Partition(a.fat, chains) && Listed(ca, chains) && op.WriteAt?
    requires op.src == [] ==> v == a && cb == ca && size' == size && written == 0
    requires op.src != [] ==>
               (written == -1 || 0 < written <= |op.src|) && Decided(a, ca, cb, written, bpc, op.offset, |op.src|)
    requires op.src != [] && written == -1 ==> size' == size && Writing(a, ca, v, cb, n, bpc, 0, [])
    requires op.src != [] && written > 0 ==>
               && Writing(a, ca, mid, cb, n, bpc, op.offset, op.src[..written])
                  && Patches(mid, v, dir, at, size', first')
               && size' == Larger(size, op.offset + written)
    ensures OneFile(a, v, ca, cb, n, bpc, dir, at, chains, chains')
    ensures Inside(a, ca) && size <= |Content(a.data, ca)| && Inside(v, cb) && size' <= |Content(v.data, cb)|
    ensures Effect(ViewOf(a, ca, size), |FreeClusters(a.fat)|, ViewOf(v, cb, size'), |FreeClusters(v.fat)|, bpc, op,
              Result(written, []))
  {
    hide Placed, Writing, Patches, Partition, Listed, Content, Decided, OneFile, Effect, FreeClusters;
    PlacedInside(a, n, bpc, first, ca, size, dir, at);
    PlacedInside(v, n, bpc, first', cb, size', dir, at);
    PlacedShaped(a, n, bpc, first, ca, size, dir, at);
    PlacedShaped(v, n, bpc, first', cb, size', dir, at);
    if op.src == [] {
      chains' := chains;
      NothingSeen(a, ca, n, bpc, dir, at, chains);
      IdleEffect(ViewOf(a, ca, size), |FreeClusters(a.fat)|, bpc, op);
    } else if written == -1 {
      chains' := ChainsAfter(a, ca, v, cb, n, bpc, 0, [], chains);
      RefusedSeen(a, ca, v, cb, n, bpc, first, size, first', dir, at, chains, chains');
      RefusedEffect(a, ca, v, cb, n, bpc, size, op);
    } else {
      PatchesFat(mid, v, dir, at, size', first');
      chains' := ChainsAfter(a, ca, mid, cb, n, bpc, op.offset, op.src[..written], chains);
      AcceptedSeen(a, ca, mid, v, cb, n, bpc, op.offset, op.src[..written], first, size, first', size', dir, at, chains,
        chains');
      FileAfterWrite(a, ca, mid, v, cb, n, bpc, op.offset, op.src[..written], size, first, size', first', dir, at);
      PatchedContent(mid, v, n, bpc, first', cb, size', dir, at);
      AcceptedEffect(a, ca, mid, v, cb, n, bpc, size, size', op, written);
    }
  }

  lemma PatchesFat(mid: Volume, v: Volume, dir: nat, at: nat, size: int, first: int)
    requires Patches(mid, v, dir, at, size, first)
    ensures v.fat == mid.fat
  {
  }

  lemma NothingSeen(a: Volume, ca: seq<nat>, n: nat, bpc: nat, dir: nat, at: nat, chains: seq<seq<nat>>)
    requires Shaped(a, n, bpc) && (forall i :: 0 <= i < |ca| ==> 2 <= ca[i] < n) && dir < |a.data|
             && Partition(a.fat, chains) && Listed(ca, chains)
    ensures OneFile(a, a, ca, ca, n, bpc, dir, at, chains, chains)
  {
    hide Partition;
  }

  lemma IdleEffect(f: FileView, free: nat, bpc: nat, op: Operation)
    requires op.WriteAt? && op.src == [] && bpc > 0
    ensures Effect(f, free, f, free, bpc, op, Result(0, []))
  {
  }

  /** The set of chains after the file's chain grew from `ca` to `cb`. */
  lemma ChainsAfter(a: Volume, ca: seq<nat>, b: Volume, cb: seq<nat>, n: nat, bpc: nat, offset: nat, src: seq<Byte>,
                    chains: seq<seq<nat>>) returns (chains': seq<seq<nat>>)
    requires Writing(a, ca, b, cb, n, bpc, offset, src) && Partition(a.fat, chains) && Listed(ca, chains)
             && (cb != [] ==> IsChain(b.fat, cb))
    ensures Partition(b.fat, chains') && Listed(cb, chains') && forall c :: c in chains && c != ca ==> c in chains'
  {
    hide Writing, Partition, IsChain;
    if ca != [] {
      var k :| 0 <= k < |chains| && chains[k] == ca;
      chains' := chains[k := cb];
      assert cb != [] by { GrewLonger(a, ca, b, cb, n, bpc, offset, src); }
      PartitionAfterWrite(a, ca, b, cb, n, bpc, offset, src, chains, k);
      assert chains'[k] == cb;
      forall c | c in chains && c != ca ensures c in chains' {
        var m :| 0 <= m < |chains| && chains[m] == c;
        assert chains'[m] == c;
      }
    } else if cb != [] {
      chains' := chains + [cb];
      PartitionAfterFirstWrite(a, b, cb, n, bpc, offset, src, chains);
    } else {
      chains' := chains;
      PartitionKept(a, b, n, bpc, offset, src, chains);
    }
  }

  lemma GrewLonger(a: Volume, ca: seq<nat>, b: Volume, cb: seq<nat>, n: nat, bpc: nat, offset: nat, src: seq<Byte>)
    requires Writing(a, ca, b, cb, n, bpc, offset, src)
    ensures |ca| <= |cb|
  {
  }

  lemma PartitionKept(a: Volume, b: Volume, n: nat, bpc: nat, offset: nat, src: seq<Byte>, chains: seq<seq<nat>>)
    requires Writing(a, [], b, [], n, bpc, offset, src) && Partition(a.fat, chains)
    ensures Partition(b.fat, chains)
  {
    hide Shows, InSome, IsChain;
    forall k | 0 <= k < |chains| ensures IsChain(b.fat, chains[k]) {
      ChainRange(a.fat, chains[k]);
      ChainFrame(a.fat, b.fat, chains[k]);
    }
  }

  lemma ChainRange(fat: seq<nat>, chain: seq<nat>)
    requires IsChain(fat, chain)
    ensures forall i :: 0 <= i < |chain| ==> 2 <= chain[i] < |fat|
  {
  }

  lemma RefusedSeen(a: Volume, ca: seq<nat>, v: Volume, cb: seq<nat>, n: nat, bpc: nat, first: nat, size: nat,
                    first': nat, dir: nat, at: nat, chains: seq<seq<nat>>, chains': seq<seq<nat>>)
    requires Writing(a, ca, v, cb, n, bpc, 0, []) && Placed(a, n, bpc, first, ca, size, dir, at)
             && Placed(v, n, bpc, first', cb, size, dir, at)
    requires Partition(v.fat, chains') && Listed(cb, chains') && forall c :: c in chains && c != ca ==> c in chains'
    ensures OneFile(a, v, ca, cb, n, bpc, dir, at, chains, chains')
  {
    hide Partition, Writing, Disturbs, Placed;
    PlacedShaped(a, n, bpc, first, ca, size, dir, at);
    PlacedShaped(v, n, bpc, first', cb, size, dir, at);
    PlacedParts(a, n, bpc, first, ca, size, dir, at);
    WriteDisturbs(a, ca, v, v, cb, n, bpc, 0, [], dir, at, size, first');
    DirKept(a, ca, v, cb, n, bpc, 0, [], dir, at);
  }

  /** The directory cluster is none of those a write touches. */
  lemma DirKept(a: Volume, ca: seq<nat>, b: Volume, cb: seq<nat>, n: nat, bpc: nat, offset: nat, src: seq<Byte>,
                dir: nat, at: nat)
    requires Writing(a, ca, b, cb, n, bpc, offset, src) && 2 <= dir < n && dir !in cb
    ensures dir < |a.data| && dir < |b.data| && b.data[dir] == a.data[dir] && EntryOnly(a, b, dir, at)
  {
    hide Shows;
  }

  lemma AcceptedSeen(a: Volume, ca: seq<nat>, mid: Volume, v: Volume, cb: seq<nat>, n: nat, bpc: nat, offset: nat,
                     src: seq<Byte>, first: nat, size: nat, first': nat, size': nat, dir: nat, at: nat,
                     chains: seq<seq<nat>>, chains': seq<seq<nat>>)
    requires Writing(a, ca, mid, cb, n, bpc, offset, src) && Patches(mid, v, dir, at, size', first')
    requires Placed(a, n, bpc, first, ca, size, dir, at) && Placed(v, n, bpc, first', cb, size', dir, at)
    requires Partition(mid.fat, chains') && Listed(cb, chains') && forall c :: c in chains && c != ca ==> c in chains'
    ensures OneFile(a, v, ca, cb, n, bpc, dir, at, chains, chains')
  {
    hide Partition, Writing, Disturbs, Placed, Patches, EntryOnly;
    PlacedShaped(a, n, bpc, first, ca, size, dir, at);
    PlacedShaped(v, n, bpc, first', cb, size', dir, at);
    PlacedParts(a, n, bpc, first, ca, size, dir, at);
    PatchesFat(mid, v, dir, at, size', first');
    WriteDisturbs(a, ca, mid, v, cb, n, bpc, offset, src, dir, at, size', first');
    DirKept(a, ca, mid, cb, n, bpc, offset, src, dir, at);
    PatchEntryOnly(mid, v, dir, at, size', first');
    EntryOnlyThen(a, mid, v, dir, at);
  }

  lemma EntryOnlyThen(a: Volume, mid: Volume, v: Volume, dir: nat, at: nat)
    requires dir < |a.data| && dir < |mid.data| && mid.data[dir] == a.data[dir] && EntryOnly(mid, v, dir, at)
    ensures EntryOnly(a, v, dir, at)
  {
  }

  lemma RefusedEffect(a: Volume, ca: seq<nat>, v: Volume, cb: seq<nat>, n: nat, bpc: nat, size: nat, op: Operation)
    requires Writing(a, ca, v, cb, n, bpc, 0, []) && Inside(a, ca) && Inside(v, cb) && size <= |Content(a.data, ca)|
             && size <= |Content(v.data, cb)|
    requires op.WriteAt? && op.src != [] && Decided(a, ca, cb, -1, bpc, op.offset, |op.src|)
    requires (ca != [] ==> IsChain(a.fat, ca)) && (cb != [] ==> IsChain(v.fat, cb))
    ensures Effect(ViewOf(a, ca, size), |FreeClusters(a.fat)|, ViewOf(v, cb, size), |FreeClusters(v.fat)|, bpc, op,
              Result(-1, []))
  {
    hide Content, IsChain, FreeClusters, Accepted, GrownTo, Shows, Laid;
    FailedWriteKeepsFile(a, ca, v, cb, n, bpc, size);
    ClustersConserved(a, ca, v, cb);
    WritingLaid(a, ca, v, v, cb, n, bpc, 0, [], size, size);
  }

  lemma WritingLaid(a: Volume, ca: seq<nat>, mid: Volume, v: Volume, cb: seq<nat>, n: nat, bpc: nat, offset: nat,
                    src: seq<Byte>, size: nat, size': nat)
    requires Writing(a, ca, mid, cb, n, bpc, offset, src) && Inside(a, ca) && Inside(mid, cb) && Inside(v, cb)
    requires size <= |Content(a.data, ca)| && size' <= |Content(v.data, cb)|
             && Content(v.data, cb) == Content(mid.data, cb)
    ensures Laid(ViewOf(a, ca, size), ViewOf(v, cb, size'), bpc, offset, src)
  {
    hide Content, Splice, Zeros, Grew, Shaped;
    var f, f' := ViewOf(a, ca, size), ViewOf(v, cb, size');
    assert f.bytes + f.slack == Content(a.data, ca) && f'.bytes + f'.slack == Content(v.data, cb);
  }

  lemma AcceptedEffect(a: Volume, ca: seq<nat>, mid: Volume, v: Volume, cb: seq<nat>, n: nat, bpc: nat, size: nat,
                       size': nat, op: Operation, written: nat)
    requires op.WriteAt? && op.src != [] && 0 < written <= |op.src|
             && Decided(a, ca, cb, written, bpc, op.offset, |op.src|)
    requires Writing(a, ca, mid, cb, n, bpc, op.offset, op.src[..written]) && v.fat == mid.fat
    requires Inside(a, ca) && Inside(v, cb) && size <= |Content(a.data, ca)| && size' <= |Content(v.data, cb)|
    requires Content(v.data, cb)[..size'] ==
               Overlay(Content(a.data, ca)[..size], Content(a.data, ca)[size..], op.offset, op.src[..written])
    requires AllZero(Content(a.data, ca)[size..]) ==> AllZero(Content(v.data, cb)[size'..])
    requires Inside(mid, cb) && Content(v.data, cb) == Content(mid.data, cb)
             && size' == Larger(size, op.offset + written)
    requires (ca != [] ==> IsChain(a.fat, ca)) && (cb != [] ==> IsChain(v.fat, cb))
    ensures Effect(ViewOf(a, ca, size), |FreeClusters(a.fat)|, ViewOf(v, cb, size'), |FreeClusters(v.fat)|, bpc, op,
              Result(written, []))
  {
    hide Content, IsChain, FreeClusters, Accepted, GrownTo, Shows, Overlay, Laid;
    ClustersConserved(a, ca, mid, cb);
    WritingLaid(a, ca, mid, v, cb, n, bpc, op.offset, op.src[..written], size, size');
  }

  /** Clearing a file. */
  lemma ClearSeen(a: Volume, ca: seq<nat>, v: Volume, n: nat, bpc: nat, op: Operation, first: nat, size: nat,
                  first': nat, dir: nat, at: nat, chains: seq<seq<nat>>)
    returns (chains': seq<seq<nat>>)
    requires Placed(a, n, bpc, first, ca, size, dir, at) && Placed(v, n, bpc, first', [], 0, dir, at)
    requires Partition(a.fat, chains) && Listed(ca, chains) && op.Clear?
    requires Patches(Volume(Freed(a.fat, ca), a.data), v, dir, at, 0, first')
    ensures OneFile(a, v, ca, [], n, bpc, dir, at, chains, chains')
    ensures Inside(a, ca) && size <= |Content(a.data, ca)| && Inside(v, []) && |Content(v.data, [])| == 0
    ensures Effect(ViewOf(a, ca, size), |FreeClusters(a.fat)|, ViewOf(v, [], 0), |FreeClusters(v.fat)|, bpc, op,
              Result(0, []))
  {
    hide Placed, Patches, Partition, Freed, FreeClusters, Disturbs, EntryOnly;
    var mid := Volume(Freed(a.fat, ca), a.data);
    PlacedInside(a, n, bpc, first, ca, size, dir, at);
    PlacedShaped(a, n, bpc, first, ca, size, dir, at);
    PlacedShaped(v, n, bpc, first', [], 0, dir, at);
    PatchesFat(mid, v, dir, at, 0, first');
    TruncateDisturbs(a, v, ca, n, bpc, dir, at, 0, first');
    PatchEntryOnly(mid, v, dir, at, 0, first');
    EntryOnlyThen(a, mid, v, dir, at);
    FreedCount(a.fat, ca);
    if ca == [] {
      chains' := chains;
      FreedNothing(a.fat);
    } else {
      var k :| 0 <= k < |chains| && chains[k] == ca;
      chains' := chains[..k] + chains[k + 1..];
      FreedPartition(a.fat, chains, k);
      forall c | c in chains && c != ca ensures c in chains' {
        var m :| 0 <= m < |chains| && chains[m] == c;
        assert chains'[if m < k then m else m - 1] == c;
      }
    }
  }

  lemma FreedCount(fat: seq<nat>, chain: seq<nat>)
    requires chain != [] ==> IsChain(fat, chain)
    ensures |FreeClusters(Freed(fat, chain))| == |FreeClusters(fat)| + |chain|
  {
    hide IsChain, Freed;
    var given := ClustersFrom(chain, 0);
    assert DistinctClusters(chain) by { ChainDistinct(fat, chain); }
    DistinctCount(chain, 0);
    forall c: nat
      ensures c in FreeClusters(Freed(fat, chain)) <==> c in FreeClusters(fat) || c in given
    {
      FreedMember(fat, chain, c);
    }
    assert FreeClusters(Freed(fat, chain)) == FreeClusters(fat) + given;
    forall c | c in given ensures c !in FreeClusters(fat) { GivenUsed(fat, chain, c); }
    assert FreeClusters(fat) !! given;
  }

  lemma ChainDistinct(fat: seq<nat>, chain: seq<nat>)
    requires chain != [] ==> IsChain(fat, chain)
    ensures DistinctClusters(chain)
  {
  }

  lemma GivenUsed(fat: seq<nat>, chain: seq<nat>, c: nat)
    requires (chain != [] ==> IsChain(fat, chain)) && c in ClustersFrom(chain, 0)
    ensures c !in FreeClusters(fat)
  {
    hide IsChain;
    var i :| 0 <= i < |chain| && chain[i] == c;
    UsedInChain(fat, chain, i);
  }

  lemma FreedMember(fat: seq<nat>, chain: seq<nat>, c: nat)
    requires chain != [] ==> IsChain(fat, chain)
    ensures c in FreeClusters(Freed(fat, chain)) <==> c in FreeClusters(fat) || c in ClustersFrom(chain, 0)
  {
    hide IsChain;
    if chain != [] { ChainRange(fat, chain); }
    if c in chain {
      var i :| 0 <= i < |chain| && chain[i] == c;
      assert c in ClustersFrom(chain, 0);
    }
  }

  // ---------------------------------------------------------------- runs

  /** The volume holds these arrays, with cleared clusters beyond their ends. */
  ghost predicate Represents(nodes: seq<Fat32VNode>, fs: Fat32Filesystem, s: Store)
    reads fs, fs.dev, set i | 0 <= i < |nodes| :: nodes[i]
    requires fs.Valid() && forall i :: 0 <= i < |nodes| ==> NodeOk(nodes[i], fs)
  {
    && |s.files| == |nodes| && s.bpc == fs.g.ClusterBytes() && s.free == |FreeClusters(fs.Fat())|
    && forall i :: 0 <= i < |nodes| ==> Held(FileOf(nodes[i], fs), s.files[i])
  }

  predicate Held(f: FileView, a: Array)
  {
    f.bytes == a.bytes && f.clusters == a.clusters && AllZero(f.slack)
  }

  /** A file with its directory entry, and all of them with the clusters left. */
  datatype Filed = Filed(view: FileView, entry: Entry)
  datatype Disk = Disk(files: seq<Filed>, free: nat)

  ghost predicate Depicts(nodes: seq<Fat32VNode>, fs: Fat32Filesystem, d: Disk)
    reads fs, fs.dev, set i | 0 <= i < |nodes| :: nodes[i]
    requires fs.Valid() && forall i :: 0 <= i < |nodes| ==> NodeOk(nodes[i], fs)
  {
    && |d.files| == |nodes| && d.free == |FreeClusters(fs.Fat())|
    && forall i :: 0 <= i < |nodes| ==>
         FileOf(nodes[i], fs) == d.files[i].view && EntryOf(nodes[i], fs, d.files[i].entry)
  }

  /** One operation: its effect on its own file and entry, and no other file. */
  predicate Moves(d: Disk, d': Disk, bpc: nat, op: Operation, r: Result)
  {
    && op.file < |d.files| == |d'.files|
       && (forall j :: 0 <= j < |d.files| && j != op.file ==> d'.files[j] == d.files[j])
    && var f, f' := d.files[op.file], d'.files[op.file];
    && Effect(f.view, d.free, f'.view, d'.free, bpc, op, r)
    && f'.entry == EntryAfter(f.entry, f.view.clusters, d.free, bpc, op, r.n)
  }

  /** A run from `d`, operation by operation. */
  predicate Traced(d: Disk, trace: seq<Disk>, bpc: nat, ops: seq<Operation>, rs: seq<Result>)
  {
    |trace| == |ops| + 1 == |rs| + 1 && trace[0] == d && forall k :: 0 <= k < |ops| ==>
      Moves(trace[k], trace[k + 1], bpc, ops[k], rs[k])
  }

  /** The run is determined by where it starts. */
  lemma {:induction false} TraceDetermined(d: Disk, t1: seq<Disk>, t2: seq<Disk>, bpc: nat, ops: seq<Operation>,
                                           r1: seq<Result>, r2: seq<Result>, k: nat)
    requires Traced(d, t1, bpc, ops, r1) && Traced(d, t2, bpc, ops, r2) && k <= |ops|
    ensures t1[k] == t2[k] && r1[..k] == r2[..k]
  {
    if k > 0 {
      hide Effect, EntryAfter;
      TraceDetermined(d, t1, t2, bpc, ops, r1, r2, k - 1);
      var op, x, x1, x2 := ops[k - 1], t1[k - 1], t1[k], t2[k];
      assert Moves(x, x1, bpc, op, r1[k - 1]) && Moves(x, x2, bpc, op, r2[k - 1]);
      EffectDetermined(x.files[op.file].view, x.free, x1.files[op.file].view, x1.free, x2.files[op.file].view, x2.free,
        bpc, op, r1[k - 1], r2[k - 1]);
      assert x1.files == x2.files;
    }
  }

  /** A refused write to file `j`, which has no clusters while some are free. */
  predicate Losing(d: Disk, op: Operation, r: Result, j: nat)
  {
    op.file == j < |d.files| && op.WriteAt? && op.src != [] && r.n <= 0 && d.files[j].view.clusters == 0 && d.free > 0
  }

  /** Over a run the directory entry of a file agrees with it throughout exactly when no operation on it was a losing
      one. */
  lemma {:induction false} EntriesExactly(d: Disk, trace: seq<Disk>, bpc: nat, ops: seq<Operation>, rs: seq<Result>,
                                          j: nat, k: nat)
    requires Traced(d, trace, bpc, ops, rs) && j < |d.files| && d.files[j].entry == Agrees(false) && k <= |ops|
    ensures |trace[k].files| == |d.files|
    ensures (forall m: nat {:trigger trace[m]} :: m <= k ==>
              j < |trace[m].files| && trace[m].files[j].entry == Agrees(false))
            <==> (forall m: nat {:trigger ops[m]} :: m < k ==> !Losing(trace[m], ops[m], rs[m], j))
  {
    if k > 0 {
      hide Effect;
      EntriesExactly(d, trace, bpc, ops, rs, j, k - 1);
      assert Moves(trace[k - 1], trace[k], bpc, ops[k - 1], rs[k - 1]);
      if Losing(trace[k - 1], ops[k - 1], rs[k - 1], j) {
        if trace[k - 1].files[j].entry == Agrees(false) { assert trace[k].files[j].entry == Lost; }
      }
    }
  }

  /** An operation on a file that holds an array does what it does on the array. */
  lemma EffectIsNext(s: Store, f: FileView, f': FileView, free': nat, op: Operation, r: Result)
    requires s.bpc > 0 && Sensible(op, |s.files|) && Held(f, s.files[op.file])
             && Effect(f, s.free, f', free', s.bpc, op, r)
    ensures r == Next(s, op).1 && free' == Next(s, op).0.free && Held(f', Next(s, op).0.files[op.file])
    ensures forall j :: 0 <= j < |s.files| && j != op.file ==> Next(s, op).0.files[j] == s.files[j]
  {
    hide Accepted, GrownTo, Overlay, Window;
    if op.WriteAt? && op.src != [] {
      GrownFits(f.clusters, s.free, s.bpc, op.offset, |op.src|);
      if r.n > 0 { OverlayZero(f.bytes, f.slack, op.offset, op.src[..r.n]); }
      AcceptedRange(f.clusters, s.free, s.bpc, op.offset, |op.src|);
    }
  }

  function Moved(d: Disk, view: FileView, free: nat, bpc: nat, op: Operation, r: Result): Disk
    requires op.file < |d.files|
  {
    var f := d.files[op.file];
    Disk(d.files[op.file := Filed(view, EntryAfter(f.entry, f.view.clusters, d.free, bpc, op, r.n))], free)
  }

  lemma TraceGrows(d: Disk, trace: seq<Disk>, bpc: nat, ops: seq<Operation>, rs: seq<Result>, op: Operation, r: Result,
                   now: Disk)
    requires Traced(d, trace, bpc, ops, rs) && Moves(trace[|ops|], now, bpc, op, r)
    ensures Traced(d, trace + [now], bpc, ops + [op], rs + [r])
  {
    hide Moves;
    forall k | 0 <= k < |ops| + 1
      ensures Moves((trace + [now])[k], (trace + [now])[k + 1], bpc, (ops + [op])[k], (rs + [r])[k])
    {
      if k < |ops| { assert Moves(trace[k], trace[k + 1], bpc, ops[k], rs[k]); }
    }
  }

  lemma AcceptedRange(clusters: nat, free: nat, bpc: nat, at: nat, want: nat)
    requires want > 0
    ensures var n := Accepted(clusters, free, bpc, at, want); n == -1 || 0 < n <= want
  {
  }

  lemma FileClusters(node: Fat32VNode, fs: Fat32Filesystem)
    requires fs.Valid() && NodeOk(node, fs)
    ensures FileOf(node, fs).clusters == |node.chain|
  {
  }

  /** One operation as a step of the disk, and of the arrays it holds. */
  method Serve(nodes: seq<Fat32VNode>, fs: Fat32Filesystem, op: Operation, ghost chains: seq<seq<nat>>, ghost s: Store,
               ghost d: Disk)
    returns (r: Result, ghost chains': seq<seq<nat>>, ghost d': Disk)
    requires Together(nodes, fs, chains) && Sensible(op, |nodes|) && s.bpc > 0 && |s.files| == |nodes|
    modifies nodes[op.file], fs.dev
    ensures Together(nodes, fs, chains')
    ensures forall j :: 0 <= j < |nodes| && j != op.file ==> FileOf(nodes[j], fs) == old(FileOf(nodes[j], fs))
    ensures old(Represents(nodes, fs, s)) ==> Represents(nodes, fs, Next(s, op).0) && r == Next(s, op).1
    ensures old(Depicts(nodes, fs, d)) ==> Moves(d, d', fs.g.ClusterBytes(), op, r) && Depicts(nodes, fs, d')
  {
    hide NodeOk, NodesApart, Content, Effect, Partition, Held, Next, Listed, FreeClusters, FileOf, EntryOf, EntryAfter;
    ghost var good, shown := Represents(nodes, fs, s), Depicts(nodes, fs, d);
    var node := nodes[op.file];
    ghost var f, free := FileOf(node, fs), |FreeClusters(fs.Fat())|;
    FileClusters(node, fs);
    r, chains' := Perform(nodes, fs, op, chains);
    d' := d;
    if good { EffectIsNext(s, f, FileOf(node, fs), |FreeClusters(fs.Fat())|, op, r); }
    if shown { d' := Moved(d, FileOf(node, fs), |FreeClusters(fs.Fat())|, fs.g.ClusterBytes(), op, r); }
  }

  /** Any run: the FAT stays a set of disjoint chains, files no operation names keep their bytes, every file, its
      slack and its directory entry go through the one run their start determines, and a volume that holds an array
      of byte arrays does exactly what the arrays do, results included. */
  method PerformAll(nodes: seq<Fat32VNode>, fs: Fat32Filesystem, ops: seq<Operation>, ghost chains: seq<seq<nat>>,
                    ghost s: Store, ghost d: Disk)
    returns (rs: seq<Result>, ghost chains': seq<seq<nat>>, ghost trace: seq<Disk>)
    requires Together(nodes, fs, chains) && s.bpc > 0 && |s.files| == |nodes|
    requires forall k :: 0 <= k < |ops| ==> ops[k].file < |nodes| && Sensible(ops[k], |nodes|)
    modifies nodes, fs.dev
    ensures Together(nodes, fs, chains') && |rs| == |ops|
    ensures forall j :: 0 <= j < |nodes| && (forall k :: 0 <= k < |ops| ==> ops[k].file != j) ==>
              FileOf(nodes[j], fs) == old(FileOf(nodes[j], fs))
    ensures old(Represents(nodes, fs, s)) ==> Represents(nodes, fs, Run(s, ops).0) && rs == Run(s, ops).1
    ensures old(Depicts(nodes, fs, d)) ==>
              Traced(d, trace, fs.g.ClusterBytes(), ops, rs) && Depicts(nodes, fs, trace[|ops|])
  {
    hide NodeOk, NodesApart, Partition, Listed, Represents, Depicts, FileOf, Next, Moves;
    ghost var good, shown := Represents(nodes, fs, s), Depicts(nodes, fs, d);
    rs, chains', trace := [], chains, [d];
    assert ops[..0] == [];
    for k := 0 to |ops|
      invariant Together(nodes, fs, chains') && |rs| == k
      invariant forall j :: 0 <= j < |nodes| && (forall m :: 0 <= m < k ==> ops[m].file != j) ==>
                  FileOf(nodes[j], fs) == old(FileOf(nodes[j], fs))
      invariant good ==> Represents(nodes, fs, Run(s, ops[..k]).0) && rs == Run(s, ops[..k]).1
      invariant |trace| == k + 1
                && (shown ==> Traced(d, trace, fs.g.ClusterBytes(), ops[..k], rs) && Depicts(nodes, fs, trace[k]))
    {
      var r;
      ghost var now;
      r, chains', now := Serve(nodes, fs, ops[k], chains', Run(s, ops[..k]).0, trace[k]);
      assert ops[..k + 1][..k] == ops[..k];
      if shown { TraceGrows(d, trace, fs.g.ClusterBytes(), ops[..k], rs, ops[k], r, now); }
      assert ops[..k + 1] == ops[..k] + [ops[k]];
      trace := trace + [now];
      rs := rs + [r];
    }
    assert ops[..|ops|] == ops;
  }
}
