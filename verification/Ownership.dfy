/** Ownership of frames by user address spaces: what lies below a table, and removing it. */
module Ownership {
  import opened Machine
  import opened PagingTypes
  import opened Ram
  import opened PageTables

  /** `k` steps towards the root. */
  function Climb(forest: Forest, f: nat, k: nat): nat
    decreases k
  {
    if k == 0 || f !in forest then f else Climb(forest, forest[f].parent, k - 1)
  }

  /** `f` is a lower-half node strictly below table `t`. */
  predicate BelowTable(forest: Forest, f: nat, t: nat)
  {
    && f in forest && t in forest && forest[f].low && forest[f].level < forest[t].level
    && Climb(forest, f, forest[t].level - forest[f].level) == t
  }

  /** The child of `t` through which `f` is reached. */
  function Branch(forest: Forest, f: nat, t: nat): nat
    requires BelowTable(forest, f, t)
  {
    Climb(forest, f, forest[t].level - 1 - forest[f].level)
  }

  /** Nodes below `t` through an entry with index less than `k`. */
  ghost function BelowUpTo(forest: Forest, t: nat, k: int): set<nat>
  {
    set f | f in forest && BelowTable(forest, f, t) && Branch(forest, f, t) in forest
    && forest[Branch(forest, f, t)].index < k
  }

  ghost function Below(forest: Forest, t: nat): set<nat>
  {
    set f | f in forest && BelowTable(forest, f, t)
  }

  /** One more step of climbing. */
  lemma {:induction false} ClimbMore(forest: Forest, f: nat, k: nat)
    ensures Climb(forest, f, k + 1) == Climb(forest, Climb(forest, f, k), 1)
    decreases k
  {
    if k > 0 && f in forest { ClimbMore(forest, forest[f].parent, k - 1); }
  }

  /** Parents of lower-half nodes are one level up, with the same root, in the lower half below the root. */
  lemma {:induction false} ClimbLow(mem: Memory, forest: Forest, f: nat, k: nat)
    requires Sound(mem, forest) && f in forest && forest[f].low && forest[f].level + k <= 4
    ensures var x := Climb(forest, f, k);
            && x in forest && forest[x].level == forest[f].level + k && forest[x].root == forest[f].root
            && (forest[f].level + k < 4 ==> forest[x].low)
    decreases k
  {
    if k > 0 {
      assert BackLink(mem, forest, f);
      var up := forest[f].parent;
      if forest[f].level + 1 < 4 {
        ClimbLow(mem, forest, up, k - 1);
      }
    }
  }

  /** Below a root: the lower-half nodes that carry it. */
  lemma BelowRoot(mem: Memory, forest: Forest, r: nat)
    requires Sound(mem, forest) && IsTable(forest, r, 4)
    ensures forall f :: f in Below(forest, r) <==>
              f in forest && forest[f].low && forest[f].root == r && forest[f].level < 4
  {
    forall f | f in forest && forest[f].low && forest[f].level < 4
      ensures BelowTable(forest, f, r) <==> forest[f].root == r
    {
      ClimbLow(mem, forest, f, 4 - forest[f].level);
    }
  }

  lemma BranchFacts(mem: Memory, forest: Forest, f: nat, t: nat)
    requires Sound(mem, forest) && BelowTable(forest, f, t) && forest[t].level <= 4
    ensures var b := Branch(forest, f, t);
            && b in forest && forest[b].level == forest[t].level - 1 && forest[b].low && forest[b].parent == t
            && 0 <= forest[b].index < 512 && (f == b || BelowTable(forest, f, b))
  {
    var k := forest[t].level - 1 - forest[f].level;
    ClimbLow(mem, forest, f, k);
    ClimbMore(forest, f, k);
    assert BackLink(mem, forest, Branch(forest, f, t));
  }

  /** Tables of a lower half: the root itself, or a low node. */
  predicate LowTable(forest: Forest, t: nat)
  {
    t in forest && 1 <= forest[t].level <= 4 && (forest[t].level < 4 ==> forest[t].low)
  }

  /** Every present leaf of the lower half of `r` maps a data frame recorded at that very entry. */
  ghost predicate LeavesOwned(mem: Memory, forest: Forest, r: nat)
  {
    forall t, i: Index {:trigger EntryAt(mem, t, i)} ::
      IsTable(forest, t, 1) && forest[t].low && forest[t].root == r && EntryAt(mem, t, i).Present() ==>
        EntryAt(mem, t, i).frame in forest && forest[EntryAt(mem, t, i).frame] == Node(0, t, i, r, true)
  }

  /** A present entry of a lower-half table leads to the node recorded there. */
  lemma LowChild(mem: Memory, forest: Forest, r: nat, t: nat, i: Index)
    requires Sound(mem, forest) && LeavesOwned(mem, forest, r) && LowTable(forest, t) && forest[t].root == r
    requires (forest[t].level == 4 ==> i < 256) && EntryAt(mem, t, i).Present()
    ensures var c := EntryAt(mem, t, i).frame;
            && c in forest && forest[c].level == forest[t].level - 1 && forest[c].parent == t && forest[c].index == i
            && forest[c].low && forest[c].root == r
    ensures forest[t].level >= 2 ==> !EntryAt(mem, t, i).Huge()
  {
    if forest[t].level >= 2 { assert EntryOk(mem, forest, t, i); }
  }

  /** The nodes reached through entry `k` of `t`: none if the entry is absent, else its child and all below. */
  lemma BelowStep(mem: Memory, forest: Forest, r: nat, t: nat, k: Index)
    requires Sound(mem, forest) && LeavesOwned(mem, forest, r) && LowTable(forest, t) && forest[t].root == r
    requires forest[t].level == 4 ==> k < 256
    ensures var e := EntryAt(mem, t, k);
            BelowUpTo(forest, t, k + 1) == BelowUpTo(forest, t, k)
              + if e.Present() then {e.frame} + Below(forest, e.frame) else {}
  {
    var e := EntryAt(mem, t, k);
    forall f | f in forest
      ensures f in BelowUpTo(forest, t, k + 1) <==>
                f in BelowUpTo(forest, t, k) || (e.Present() && (f == e.frame || f in Below(forest, e.frame)))
    {
      BelowStepOne(mem, forest, r, t, k, f);
    }
    if e.Present() { LowChild(mem, forest, r, t, k); }
  }

  lemma BelowStepOne(mem: Memory, forest: Forest, r: nat, t: nat, k: Index, f: nat)
    requires Sound(mem, forest) && LeavesOwned(mem, forest, r) && LowTable(forest, t) && forest[t].root == r
    requires (forest[t].level == 4 ==> k < 256) && f in forest
    ensures var e := EntryAt(mem, t, k);
            f in BelowUpTo(forest, t, k + 1) <==>
              f in BelowUpTo(forest, t, k) || (e.Present() && (f == e.frame || f in Below(forest, e.frame)))
  {
    var e := EntryAt(mem, t, k);
    if BelowTable(forest, f, t) {
      BranchFacts(mem, forest, f, t);
      assert BackLink(mem, forest, Branch(forest, f, t));
    }
    if e.Present() {
      LowChild(mem, forest, r, t, k);
      if f == e.frame {
        assert Climb(forest, f, 1) == Climb(forest, forest[f].parent, 0) == t;
        assert Climb(forest, f, 0) == f;
      } else if BelowTable(forest, f, e.frame) {
        ClimbMore(forest, f, forest[e.frame].level - forest[f].level);
        assert Climb(forest, e.frame, 1) == Climb(forest, forest[e.frame].parent, 0) == t;
      }
    }
  }

  lemma BelowBounds(mem: Memory, forest: Forest, t: nat)
    requires Sound(mem, forest) && LowTable(forest, t)
    ensures BelowUpTo(forest, t, 0) == {}
    ensures BelowUpTo(forest, t, 512) == Below(forest, t)
    ensures forest[t].level == 4 ==> BelowUpTo(forest, t, 256) == Below(forest, t)
  {
    forall f | f in forest && BelowTable(forest, f, t)
      ensures var b := Branch(forest, f, t);
              b in forest && 0 <= forest[b].index < 512 && (forest[t].level == 4 ==> forest[b].index < 256)
    {
      BranchFacts(mem, forest, f, t);
      var b := Branch(forest, f, t);
      assert BackLink(mem, forest, b);
      if forest[t].level == 4 { assert EntryOk(mem, forest, t, forest[b].index); }
    }
  }

  /** The forest without the address space `r`. */
  function Without(forest: Forest, gone: set<nat>): Forest
  {
    forest - gone
  }

  ghost predicate SameTables(mem: Memory, mem': Memory, forest: Forest)
  {
    && mem'.Keys == mem.Keys
    && forall t, i: Index {:trigger EntryAt(mem', t, i)} :: t in forest && forest[t].level >= 1 ==>
         EntryAt(mem', t, i) == EntryAt(mem, t, i)
  }

  /** Removing a whole address space leaves a sound forest. */
  lemma WithoutSound(mem: Memory, forest: Forest, r: nat, mem': Memory)
    requires Sound(mem, forest) && IsTable(forest, r, 4)
    requires SameTables(mem, mem', Without(forest, Below(forest, r) + {r}))
    ensures Sound(mem', Without(forest, Below(forest, r) + {r}))
  {
    var gone := Below(forest, r) + {r};
    var forest' := Without(forest, gone);
    BelowRoot(mem, forest, r);
    forall t, i: Index | t in forest' && forest'[t].level >= 2 ensures EntryOk(mem', forest', t, i) {
      assert EntryOk(mem, forest, t, i);
    }
    forall c | c in forest' ensures BackLink(mem', forest', c) && (forall j: Index :: UserAbove(mem', forest', c, j)) {
      assert BackLink(mem, forest, c);
      forall j: Index ensures UserAbove(mem', forest', c, j) {
        assert UserAbove(mem, forest, c, j);
      }
    }
  }

  /** Walks from the remaining roots never enter a removed table. */
  lemma WithoutKeepsWalks(mem: Memory, forest: Forest, r: nat, mem': Memory, r': nat, p: Path)
    requires Sound(mem, forest) && IsTable(forest, r, 4)
    requires SameTables(mem, mem', Without(forest, Below(forest, r) + {r}))
    requires IsTable(forest, r', 4) && r' != r
    ensures Walk(mem', r', p) == Walk(mem, r', p)
  {
    BelowRoot(mem, forest, r);
    FollowLink(mem, forest, r', p.i4);
    assert EntryAt(mem', r', p.i4) == EntryAt(mem, r', p.i4);
    if EntryAt(mem, r', p.i4).Present() {
      var t3 := EntryAt(mem, r', p.i4).frame;
      FollowLink(mem, forest, t3, p.i3);
      assert EntryAt(mem', t3, p.i3) == EntryAt(mem, t3, p.i3);
      if EntryAt(mem, t3, p.i3).Present() {
        var t2 := EntryAt(mem, t3, p.i3).frame;
        FollowLink(mem, forest, t2, p.i2);
        assert EntryAt(mem', t2, p.i2) == EntryAt(mem, t2, p.i2);
        if Links(EntryAt(mem, t2, p.i2), 2) {
          assert EntryAt(mem', EntryAt(mem, t2, p.i2).frame, p.i1) == EntryAt(mem, EntryAt(mem, t2, p.i2).frame, p.i1);
        }
      }
    }
  }

  /** No translation of a root other than `r` changed. */
  ghost predicate SameElsewhere(mem: Memory, mem': Memory, forest: Forest, r: nat)
  {
    forall r', p {:trigger Walk(mem', r', p)} :: IsTable(forest, r', 4) && r' != r ==>
      Walk(mem', r', p) == Walk(mem, r', p)
  }

  lemma WithoutSameElsewhere(mem: Memory, forest: Forest, r: nat, mem': Memory)
    requires Sound(mem, forest) && IsTable(forest, r, 4)
             && SameTables(mem, mem', Without(forest, Below(forest, r) + {r}))
    ensures SameElsewhere(mem, mem', forest, r)
  {
    hide Sound, SameTables, Walk, Below;
    forall r', p | IsTable(forest, r', 4) && r' != r ensures Walk(mem', r', p) == Walk(mem, r', p) {
      WithoutKeepsWalks(mem, forest, r, mem', r', p);
    }
  }

  // ---------------------------------------------------------------- bookkeeping of a teardown

  /** `used` with the frames of `gone` returned. */
  function Cleared(used: seq<bool>, gone: set<nat>): (r: seq<bool>)
    ensures |r| == |used| && forall f :: 0 <= f < |used| ==> r[f] == (used[f] && f !in gone)
  {
    seq(|used|, f requires 0 <= f < |used| => used[f] && f !in gone)
  }

  /** The tables in `those` still hold what they held in `mem`. */
  ghost predicate Intact(mem: Memory, mem': Memory, those: set<nat>)
  {
    forall x, j: Index {:trigger EntryAt(mem', x, j)} :: x in those ==> EntryAt(mem', x, j) == EntryAt(mem, x, j)
  }

  ghost predicate OnlyWithin(mem: Memory, mem': Memory, those: set<nat>)
  {
    mem'.Keys == mem.Keys && forall f :: f in mem && f !in those ==> mem'[f] == mem[f]
  }

  /** What a teardown step may rely on: entry `i` of `t` and everything below it is untouched so far. */
  lemma BranchUntouched(mem: Memory, forest: Forest, r: nat, t: nat, i: Index)
    requires Sound(mem, forest) && LeavesOwned(mem, forest, r) && LowTable(forest, t) && forest[t].root == r
    requires (forest[t].level == 4 ==> i < 256) && EntryAt(mem, t, i).Present()
    ensures var c := EntryAt(mem, t, i).frame;
            && {c} + Below(forest, c) <= Below(forest, t) && ({c} + Below(forest, c)) !! BelowUpTo(forest, t, i)
            && c !in Below(forest, c)
            && BelowUpTo(forest, t, i + 1) == BelowUpTo(forest, t, i) + {c} + Below(forest, c)
  {
    var c := EntryAt(mem, t, i).frame;
    LowChild(mem, forest, r, t, i);
    BelowStep(mem, forest, r, t, i);
    forall f | f == c || f in Below(forest, c) ensures f in Below(forest, t) && f !in BelowUpTo(forest, t, i) {
      if f == c {
        assert Climb(forest, f, 1) == Climb(forest, forest[f].parent, 0) == t;
        assert Climb(forest, f, 0) == f;
      } else {
        ClimbMore(forest, f, forest[c].level - forest[f].level);
        assert Climb(forest, c, 1) == Climb(forest, forest[c].parent, 0) == t;
      }
    }
  }

  lemma ClearedTwice(used: seq<bool>, a: set<nat>, b: set<nat>)
    ensures Cleared(Cleared(used, a), b) == Cleared(used, a + b)
  {
  }

  lemma ClearedOne(used: seq<bool>, a: set<nat>, c: nat)
    requires c < |used|
    ensures Cleared(used, a)[c := false] == Cleared(used, a + {c})
  {
  }

  /** State of a teardown of `t` after its first `i` entries. */
  ghost predicate TornDown(forest: Forest, t: nat, i: int, mem: Memory, frames0: Memory, used0: seq<bool>,
                           frames: Memory, used: seq<bool>)
  {
    && used == Cleared(used0, BelowUpTo(forest, t, i))
    && OnlyWithin(frames0, frames, Below(forest, t) + {t})
    && Intact(mem, frames, Below(forest, t) - BelowUpTo(forest, t, i))
    && forall j: Index {:trigger EntryAt(frames, t, j)} :: i <= j ==> EntryAt(frames, t, j) == EntryAt(mem, t, j)
  }

  lemma NotBelowItself(forest: Forest, t: nat)
    ensures t !in Below(forest, t) && (forall k :: BelowUpTo(forest, t, k) <= Below(forest, t))
  {
  }

  /** Freeing the branch behind entry `i` advances the teardown by one entry. */
  lemma TornDownStep(forest: Forest, r: nat, t: nat, i: Index, mem: Memory, frames0: Memory, used0: seq<bool>,
                     frames: Memory, used: seq<bool>, frames': Memory, used': seq<bool>)
    requires Sound(mem, forest) && LeavesOwned(mem, forest, r) && LowTable(forest, t) && forest[t].root == r
    requires (forest[t].level == 4 ==> i < 256) && EntryAt(mem, t, i).Present()
    requires TornDown(forest, t, i, mem, frames0, used0, frames, used)
    requires var c := EntryAt(mem, t, i).frame;
             && used' == Cleared(used, {c} + Below(forest, c))
             && OnlyWithin(frames, frames', Below(forest, c) + {c} + (if forest[t].level == 1 then {t} else {}))
             && (forest[t].level == 1 ==> t in frames && frames' == WithEntry(frames, t, i, EMPTY))
    ensures TornDown(forest, t, i + 1, mem, frames0, used0, frames', used')
  {
    var c := EntryAt(mem, t, i).frame;
    BranchUntouched(mem, forest, r, t, i);
    NotBelowItself(forest, t);
    LowChild(mem, forest, r, t, i);
    ClearedTwice(used0, BelowUpTo(forest, t, i), {c} + Below(forest, c));
    assert BelowUpTo(forest, t, i) + ({c} + Below(forest, c)) == BelowUpTo(forest, t, i + 1);
    forall x, j: Index | x in Below(forest, t) - BelowUpTo(forest, t, i + 1)
      ensures EntryAt(frames', x, j) == EntryAt(mem, x, j)
    {
      assert EntryAt(frames, x, j) == EntryAt(mem, x, j);
      assert x in frames ==> frames'[x] == frames[x];
    }
    forall j: Index | i + 1 <= j ensures EntryAt(frames', t, j) == EntryAt(mem, t, j) {
      assert EntryAt(frames, t, j) == EntryAt(mem, t, j);
      if forest[t].level == 1 { EntryUpdate(frames, t, i, EMPTY, t, j); }
    }
  }

  lemma TornDownSkip(forest: Forest, r: nat, t: nat, i: Index, mem: Memory, frames0: Memory, used0: seq<bool>,
                     frames: Memory, used: seq<bool>)
    requires Sound(mem, forest) && LeavesOwned(mem, forest, r) && LowTable(forest, t) && forest[t].root == r
    requires (forest[t].level == 4 ==> i < 256) && !EntryAt(mem, t, i).Present()
    requires TornDown(forest, t, i, mem, frames0, used0, frames, used)
    ensures TornDown(forest, t, i + 1, mem, frames0, used0, frames, used)
  {
    BelowStep(mem, forest, r, t, i);
    assert BelowUpTo(forest, t, i + 1) == BelowUpTo(forest, t, i);
  }

  // ---------------------------------------------------------------- a new address space

  /** `r` holds an empty lower half and the kernel root's upper half. */
  ghost predicate UserRootEntries(mem: Memory, mem': Memory, k: nat, r: nat)
  {
    && OnlyWithin(mem, mem', {r})
    && forall j: Index {:trigger EntryAt(mem', r, j)} :: EntryAt(mem', r, j) ==
         if j < 256 then EMPTY else EntryAt(mem, k, j)
  }

  function WithRoot(forest: Forest, r: nat): Forest
  {
    forest[r := Node(4, 0, 0, r, false)]
  }

  lemma OutsideUnchanged(mem: Memory, mem': Memory, r: nat, t: nat, i: Index)
    requires OnlyWithin(mem, mem', {r}) && t != r
    ensures EntryAt(mem', t, i) == EntryAt(mem, t, i)
  {
  }

  lemma NewRootSound(mem: Memory, mem': Memory, forest: Forest, k: nat, r: nat)
    requires Sound(mem, forest) && IsTable(forest, k, 4) && r !in forest && r in mem'
             && UserRootEntries(mem, mem', k, r)
    ensures Sound(mem', WithRoot(forest, r))
  {
    var forest' := WithRoot(forest, r);
    forall t, i: Index | t in forest' && forest'[t].level >= 2 ensures EntryOk(mem', forest', t, i) {
      if t != r {
        OutsideUnchanged(mem, mem', r, t, i);
        assert EntryOk(mem, forest, t, i);
      } else {
        assert EntryOk(mem, forest, k, i);
        assert EntryAt(mem', r, i) == if i < 256 then EMPTY else EntryAt(mem, k, i);
      }
    }
    forall c | c in forest' ensures BackLink(mem', forest', c) && (forall j: Index :: UserAbove(mem', forest', c, j)) {
      if c != r {
        assert BackLink(mem, forest, c);
        var n := forest[c];
        if Tracked(n) { OutsideUnchanged(mem, mem', r, n.parent, n.index); }
        forall j: Index ensures UserAbove(mem', forest', c, j) {
          assert UserAbove(mem, forest, c, j);
          OutsideUnchanged(mem, mem', r, c, j);
        }
      }
    }
  }

  /** No lower-half node belongs to a root outside the forest, so a new root owns nothing yet. */
  lemma NewRootOwnsNothing(mem: Memory, mem': Memory, forest: Forest, r: nat)
    requires Sound(mem, forest) && r !in forest
    ensures LeavesOwned(mem', WithRoot(forest, r), r)
  {
    forall t | t in forest && forest[t].low && forest[t].level < 4 ensures forest[t].root != r {
      ClimbLow(mem, forest, t, 4 - forest[t].level);
    }
  }

  lemma NewRootWalks(mem: Memory, mem': Memory, forest: Forest, k: nat, r: nat, r': nat, p: Path)
    requires Sound(mem, forest) && IsTable(forest, k, 4) && r !in forest && UserRootEntries(mem, mem', k, r)
    requires IsTable(forest, r', 4)
    ensures Walk(mem', r', p) == Walk(mem, r', p)
    ensures Walk(mem', r, p) == if p.i4 < 256 then Unmapped else Walk(mem, k, p)
  {
    KeptBelow(mem, mem', forest, r, r', p);
    assert EntryAt(mem', r, p.i4) == if p.i4 < 256 then EMPTY else EntryAt(mem, k, p.i4);
    KeptBelow(mem, mem', forest, r, k, p);
  }

  lemma KeptBelow(mem: Memory, mem': Memory, forest: Forest, r: nat, r': nat, p: Path)
    requires Sound(mem, forest) && r !in forest && OnlyWithin(mem, mem', {r}) && IsTable(forest, r', 4)
    ensures EntryAt(mem', r', p.i4) == EntryAt(mem, r', p.i4)
    ensures EntryAt(mem, r', p.i4).Present() ==>
              WalkPdpt(mem', EntryAt(mem, r', p.i4).frame, p) == WalkPdpt(mem, EntryAt(mem, r', p.i4).frame, p)
  {
    FollowLink(mem, forest, r', p.i4);
    OutsideUnchanged(mem, mem', r, r', p.i4);
    if EntryAt(mem, r', p.i4).Present() {
      var t3 := EntryAt(mem, r', p.i4).frame;
      FollowLink(mem, forest, t3, p.i3);
      OutsideUnchanged(mem, mem', r, t3, p.i3);
      if EntryAt(mem, t3, p.i3).Present() {
        var t2 := EntryAt(mem, t3, p.i3).frame;
        FollowLink(mem, forest, t2, p.i2);
        OutsideUnchanged(mem, mem', r, t2, p.i2);
        if Links(EntryAt(mem, t2, p.i2), 2) {
          OutsideUnchanged(mem, mem', r, EntryAt(mem, t2, p.i2).frame, p.i1);
        }
      }
    }
  }

  /** A new root sees the kernel half and an empty lower half; no other root sees a change. */
  ghost predicate FreshSpace(mem: Memory, mem': Memory, forest: Forest, k: nat, r: nat)
  {
    && (forall r', p {:trigger Walk(mem', r', p)} :: IsTable(forest, r', 4) ==> Walk(mem', r', p) == Walk(mem, r', p))
    && (forall p {:trigger Walk(mem', r, p)} :: Walk(mem', r, p) == if p.i4 < 256 then Unmapped else Walk(mem, k, p))
  }

  lemma NewRootIsFreshSpace(mem: Memory, mem': Memory, forest: Forest, k: nat, r: nat)
    requires Sound(mem, forest) && IsTable(forest, k, 4) && r !in forest && UserRootEntries(mem, mem', k, r)
    ensures FreshSpace(mem, mem', forest, k, r)
  {
    forall r', p | IsTable(forest, r', 4) ensures Walk(mem', r', p) == Walk(mem, r', p) {
      NewRootWalks(mem, mem', forest, k, r, r', p);
    }
    forall p ensures Walk(mem', r, p) == if p.i4 < 256 then Unmapped else Walk(mem, k, p) {
      NewRootWalks(mem, mem', forest, k, r, k, p);
    }
  }

  // ---------------------------------------------------------------- owned leaves and walks

  /** The path on which a walk arrives at entry `i` of the page table `t`, read off the forest. */
  function PathTo(forest: Forest, t: nat, i: Index): Path
    requires t in forest && forest[t].parent in forest && forest[forest[t].parent].parent in forest
    requires 0 <= forest[t].index < 512 && 0 <= forest[forest[t].parent].index < 512
    requires 0 <= forest[forest[forest[t].parent].parent].index < 512
  {
    Path(forest[forest[forest[t].parent].parent].index, forest[forest[t].parent].index, forest[t].index, i)
  }

  predicate LowPt(forest: Forest, t: nat, r: nat)
  {
    && IsTable(forest, t, 1) && forest[t].low && forest[t].root == r
    && forest[t].parent in forest && forest[forest[t].parent].parent in forest
    && 0 <= forest[t].index < 512 && 0 <= forest[forest[t].parent].index < 512
    && 0 <= forest[forest[forest[t].parent].parent].index < 256
  }

  lemma LowPtReached(mem: Memory, forest: Forest, t: nat, i: Index)
    requires Sound(mem, forest) && IsTable(forest, t, 1) && forest[t].low
    ensures LowPt(forest, t, forest[t].root) && Reaches(mem, forest[t].root, PathTo(forest, t, i), t)
    ensures IsTable(forest, forest[t].root, 4)
  {
    assert BackLink(mem, forest, t);
    var t2 := forest[t].parent;
    assert BackLink(mem, forest, t2);
    var t3 := forest[t2].parent;
    assert BackLink(mem, forest, t3);
    var r := forest[t3].parent;
    assert forest[r].root == r;
    assert EntryOk(mem, forest, r, forest[t3].index);
  }

  lemma ReachedPath(mem: Memory, forest: Forest, r: nat, p: Path, t: nat)
    requires Sound(mem, forest) && IsTable(forest, r, 4) && p.i4 < 256 && Reaches(mem, r, p, t)
    ensures LowPt(forest, t, r) && PathTo(forest, t, p.i1) == p
  {
    FollowLink(mem, forest, r, p.i4);
    var t3 := EntryAt(mem, r, p.i4).frame;
    FollowLink(mem, forest, t3, p.i3);
    var t2 := EntryAt(mem, t3, p.i3).frame;
    FollowLink(mem, forest, t2, p.i2);
  }

  lemma SmallWalkReaches(mem: Memory, r: nat, p: Path) returns (t: nat)
    requires Walk(mem, r, p).Small?
    ensures Reaches(mem, r, p, t) && EntryAt(mem, t, p.i1).Present()
            && EntryAt(mem, t, p.i1).frame == Walk(mem, r, p).frame
  {
    var e4 := EntryAt(mem, r, p.i4);
    var e3 := EntryAt(mem, e4.frame, p.i3);
    t := EntryAt(mem, e3.frame, p.i2).frame;
  }

  /** A leaf whose translation did not change keeps its recorded owner. */
  lemma OwnerKept(a: View, b: View, r: nat, t: nat, i: Index)
    requires Sound(a.mem, a.forest) && Sound(b.mem, b.forest) && Grown(a.forest, b.forest)
    requires LeavesOwned(a.mem, a.forest, r) && IsTable(a.forest, r, 4)
    requires IsTable(b.forest, t, 1) && b.forest[t].low && b.forest[t].root == r && EntryAt(b.mem, t, i).Present()
    requires LowPt(b.forest, t, r) && Walk(b.mem, r, PathTo(b.forest, t, i)) == Walk(a.mem, r, PathTo(b.forest, t, i))
    ensures var g := EntryAt(b.mem, t, i).frame; g in a.forest && g in b.forest && b.forest[g] == Node(0, t, i, r, true)
  {
    var p := PathTo(b.forest, t, i);
    LowPtReached(b.mem, b.forest, t, i);
    var t' := SmallWalkReaches(a.mem, r, p);
    ReachedPath(a.mem, a.forest, r, p, t');
    ReachedTable(a.mem, a.forest, r, p, t');
    var g := EntryAt(a.mem, t', i).frame;
    assert a.forest[g] == Node(0, t', i, r, true);
    LowPtReached(b.mem, b.forest, t', i);
    assert PathTo(b.forest, t', i) == p;
  }

  lemma ExtendsKeepsOwners(a: View, b: View, r: nat, low: bool)
    requires Extends(a, b, r, low) && Sound(a.mem, a.forest) && Sound(b.mem, b.forest)
    requires LeavesOwned(a.mem, a.forest, r) && IsTable(a.forest, r, 4)
    ensures LeavesOwned(b.mem, b.forest, r)
  {
    forall t, i: Index | IsTable(b.forest, t, 1) && b.forest[t].low && b.forest[t].root == r
    && EntryAt(b.mem, t, i).Present()
      ensures EntryAt(b.mem, t, i).frame in b.forest && b.forest[EntryAt(b.mem, t, i).frame] == Node(0, t, i, r, true)
    {
      LowPtReached(b.mem, b.forest, t, i);
      assert Walk(b.mem, r, PathTo(b.forest, t, i)) == Walk(a.mem, r, PathTo(b.forest, t, i));
      OwnerKept(a, b, r, t, i);
    }
  }

  /** The forest with data frame `f` recorded behind the leaf that maps it. */
  function WithLeaf(forest: Forest, t: nat, i: Index, r: nat, f: nat): Forest
  {
    forest[f := Node(0, t, i, r, true)]
  }

  lemma MappedLeafOne(a: View, b: View, r: nat, p: Path, f: nat, flags: Flags, t: nat, u: nat, i: Index)
    requires MapsOnly(a, b, r, p, Small(f, flags)) && Sound(a.mem, a.forest) && Sound(b.mem, b.forest)
    requires LeavesOwned(a.mem, a.forest, r) && IsTable(a.forest, r, 4) && Reaches(b.mem, r, p, t)
    requires IsTable(b.forest, u, 1) && b.forest[u].low && b.forest[u].root == r && EntryAt(b.mem, u, i).Present()
    ensures var g := EntryAt(b.mem, u, i).frame;
            (g == f && u == t && i == p.i1) || (g in b.forest && b.forest[g] == Node(0, u, i, r, true))
  {
    LowPtReached(b.mem, b.forest, u, i);
    var q := PathTo(b.forest, u, i);
    if q != p {
      assert Walk(b.mem, r, q) == Walk(a.mem, r, q);
      OwnerKept(a, b, r, u, i);
    }
  }

  lemma MappedLeafOwned(a: View, b: View, r: nat, p: Path, f: nat, flags: Flags, t: nat)
    requires MapsOnly(a, b, r, p, Small(f, flags)) && Sound(a.mem, a.forest) && Sound(b.mem, b.forest)
    requires LeavesOwned(a.mem, a.forest, r) && IsTable(a.forest, r, 4) && p.i4 < 256
    requires Reaches(b.mem, r, p, t) && f !in b.forest
    ensures LeavesOwned(b.mem, WithLeaf(b.forest, t, p.i1, r, f), r)
  {
    hide MapsOnly, Sound;
    var forest' := WithLeaf(b.forest, t, p.i1, r, f);
    forall u: nat, i: Index | IsTable(forest', u, 1) && forest'[u].low && forest'[u].root == r
    && EntryAt(b.mem, u, i).Present()
      ensures EntryAt(b.mem, u, i).frame in forest' && forest'[EntryAt(b.mem, u, i).frame] == Node(0, u, i, r, true)
    {
      MappedLeafOne(a, b, r, p, f, flags, t, u, i);
    }
  }

  lemma WithLeafSound(mem: Memory, forest: Forest, t: nat, i: Index, r: nat, f: nat)
    requires Sound(mem, forest) && IsTable(forest, t, 1) && forest[t].low && forest[t].root == r && f !in forest
    requires EntryAt(mem, t, i).Present() && EntryAt(mem, t, i).frame == f
    ensures Sound(mem, WithLeaf(forest, t, i, r, f))
  {
    var forest' := WithLeaf(forest, t, i, r, f);
    forall u, j: Index | u in forest' && forest'[u].level >= 2 ensures EntryOk(mem, forest', u, j) {
      assert EntryOk(mem, forest, u, j);
    }
    forall c | c in forest' ensures BackLink(mem, forest', c) && (forall j: Index :: UserAbove(mem, forest', c, j)) {
      if c != f {
        assert BackLink(mem, forest, c);
        forall j: Index ensures UserAbove(mem, forest', c, j) { assert UserAbove(mem, forest, c, j); }
      }
    }
  }

  /** Walks read tables only. */
  lemma DataWriteKeepsWalk(mem: Memory, forest: Forest, f: nat, page: Page, r: nat, p: Path)
    requires Sound(mem, forest) && f in mem && (f in forest ==> forest[f].level == 0) && IsTable(forest, r, 4)
    ensures Walk(mem[f := page], r, p) == Walk(mem, r, p)
  {
    var t3, t3' := EntryAt(mem, r, p.i4), EntryAt(mem[f := page], r, p.i4);
    FollowLink(mem, forest, r, p.i4);
    if t3.Present() {
      var t2 := EntryAt(mem, t3.frame, p.i3);
      FollowLink(mem, forest, t3.frame, p.i3);
      if t2.Present() {
        FollowLink(mem, forest, t2.frame, p.i2);
      }
    }
  }

  lemma DataWriteSound(mem: Memory, forest: Forest, f: nat, page: Page, r: nat)
    requires Sound(mem, forest) && f in mem && (f in forest ==> forest[f].level == 0)
    ensures Sound(mem[f := page], forest)
    ensures LeavesOwned(mem, forest, r) ==> LeavesOwned(mem[f := page], forest, r)
  {
    var mem' := mem[f := page];
    forall t, i: Index | t in forest && forest[t].level >= 1 ensures EntryAt(mem', t, i) == EntryAt(mem, t, i) { }
    forall t, i: Index | t in forest && forest[t].level >= 2 ensures EntryOk(mem', forest, t, i) {
      assert EntryOk(mem, forest, t, i);
    }
    forall c | c in forest ensures BackLink(mem', forest, c) && (forall j: Index :: UserAbove(mem', forest, c, j)) {
      assert BackLink(mem, forest, c);
      forall j: Index ensures UserAbove(mem', forest, c, j) { assert UserAbove(mem, forest, c, j); }
    }
  }
}
