/** The 4-level page-table forest: table walks, and what single entry updates do to them. */
module PageTables {
  import opened Machine
  import opened PagingTypes
  import opened Ram

  type Memory = map<nat, Page>
  type Index = i: int | 0 <= i < 512

  /** The four table indices of a virtual page, PML4 first. */
  datatype Path = Path(i4: Index, i3: Index, i2: Index, i1: Index)

  /** What a walk ends in: a 4 KiB page or a 2 MiB page, with the flags of its own entry. */
  datatype Leaf = Unmapped | Small(frame: nat, flags: Flags) | Large(frame: nat, flags: Flags)

  function TableFlagsFor(user: bool): Flags
  {
    NO_FLAGS.(present := true, writable := true, user := user)
  }

  function EntryAt(mem: Memory, t: nat, i: Index): Pte
  {
    if t in mem then AsTable(mem[t])[i] else EMPTY
  }

  function WithEntry(mem: Memory, t: nat, i: Index, e: Pte): Memory
    requires t in mem
  {
    mem[t := Entries(AsTable(mem[t])[i := e])]
  }

  lemma EntryUpdate(mem: Memory, t: nat, i: Index, e: Pte, u: nat, j: Index)
    requires t in mem
    ensures EntryAt(WithEntry(mem, t, i, e), u, j) == if u == t && j == i then e else EntryAt(mem, u, j)
  {
  }

  // ---------------------------------------------------------------- walking

  function WalkPt(mem: Memory, t: nat, p: Path): Leaf
  {
    var e := EntryAt(mem, t, p.i1);
    if e.Present() then Small(e.frame, e.flags) else Unmapped
  }

  function WalkPd(mem: Memory, t: nat, p: Path): Leaf
  {
    var e := EntryAt(mem, t, p.i2);
    if !e.Present() then Unmapped
    else if e.Huge() then Large(e.frame, e.flags)
    else WalkPt(mem, e.frame, p)
  }

  function WalkPdpt(mem: Memory, t: nat, p: Path): Leaf
  {
    var e := EntryAt(mem, t, p.i3);
    if !e.Present() then Unmapped else WalkPd(mem, e.frame, p)
  }

  /** `translate`: the walk from a root table. */
  function Walk(mem: Memory, root: nat, p: Path): Leaf
  {
    var e := EntryAt(mem, root, p.i4);
    if !e.Present() then Unmapped else WalkPdpt(mem, e.frame, p)
  }

  // ---------------------------------------------------------------- the forest

  /** Where a frame sits: 4 = root, 3 = PDPT, 2 = PD, 1 = PT, 0 = data frame owned by a mapping.
      `root` and `low` say under which root, and in which half of it, the frame was linked. */
  datatype Node = Node(level: nat, parent: nat, index: int, root: nat, low: bool)

  type Forest = map<nat, Node>

  predicate IsTable(forest: Forest, t: nat, level: nat)
  {
    t in forest && forest[t].level == level
  }

  /** An entry that leads on to another table. */
  predicate Links(e: Pte, level: nat)
  {
    e.Present() && (level == 2 ==> !e.Huge())
  }

  /** The node of a table linked from entry `i` of the level-`level` table `t`; PDPTs of the kernel half may be
      linked from several roots, everything else from one place only. */
  predicate LinkedFrom(forest: Forest, t: nat, i: Index, c: nat)
    requires t in forest
  {
    && c in forest && forest[c].level == forest[t].level - 1 && forest[c].index == i
    && (forest[t].level == 4 ==> forest[c].low == (i < 256))
    && (forest[t].level < 4 || i < 256 ==> forest[c].parent == t && forest[c].root == forest[t].root)
    && (forest[t].level < 4 ==> forest[c].low == forest[t].low)
  }

  /** Entry `i` of table `t` is absent, a 2 MiB page, or a writable executable link to its child table. */
  predicate EntryOk(mem: Memory, forest: Forest, t: nat, i: Index)
    requires t in forest
  {
    var e := EntryAt(mem, t, i);
    && (e.Huge() ==> e.Present() && forest[t].level == 2 && !forest[t].low)
    && (Links(e, forest[t].level) ==> e.Writable() && !e.NoExecute() && LinkedFrom(forest, t, i, e.frame))
  }

  ghost predicate WellFormed(mem: Memory, forest: Forest)
  {
    && (forall t :: t in forest && forest[t].level >= 1 ==> t in mem)
    && (forall t :: t in forest ==>
         forest[t].level <= 4 && (forest[t].level == 4 ==> forest[t].root == t && !forest[t].low))
    && forall t, i: Index {:trigger EntryOk(mem, forest, t, i)} ::
         t in forest && forest[t].level >= 2 ==> EntryOk(mem, forest, t, i)
  }

  /** The table an entry of a well-formed forest links to is the one the forest records. */
  lemma FollowLink(mem: Memory, forest: Forest, t: nat, i: Index)
    requires WellFormed(mem, forest) && t in forest && forest[t].level >= 2
    ensures Links(EntryAt(mem, t, i), forest[t].level) ==> LinkedFrom(forest, t, i, EntryAt(mem, t, i).frame)
    ensures forest[t].level > 2 ==> EntryAt(mem, t, i).Present() ==> Links(EntryAt(mem, t, i), forest[t].level)
  {
    assert EntryOk(mem, forest, t, i);
  }

  /** Flags of intermediate entries. */
  predicate TableFlags(f: Flags)
  {
    f.present && f.writable && !f.huge && !f.noExecute
  }

  // ---------------------------------------------------------------- linking a new table

  function Linked(forest: Forest, t: nat, i: Index, c: nat): Forest
    requires t in forest && forest[t].level >= 1
  {
    var n := forest[t];
    forest[c := Node(n.level - 1, t, i, n.root, if n.level == 4 then i < 256 else n.low)]
  }

  /** A zeroed frame `c` linked into the absent entry `i` of table `t`. */
  function LinkTable(mem: Memory, t: nat, i: Index, c: nat, flags: Flags): Memory
    requires t in mem
  {
    WithEntry(mem[c := Zero], t, i, Pte(flags, c))
  }

  predicate CanLink(mem: Memory, forest: Forest, t: nat, i: Index, c: nat, flags: Flags)
  {
    && t in forest && forest[t].level >= 2 && t in mem && !EntryAt(mem, t, i).Present()
    && c !in forest && TableFlags(flags)
  }

  lemma LinkTableEntries(mem: Memory, t: nat, i: Index, c: nat, flags: Flags, u: nat, j: Index)
    requires t in mem && t != c
    ensures EntryAt(LinkTable(mem, t, i, c, flags), u, j) ==
              if u == t && j == i then Pte(flags, c) else if u == c then EMPTY else EntryAt(mem, u, j)
  {
  }

  lemma LinkTableWellFormed(mem: Memory, forest: Forest, t: nat, i: Index, c: nat, flags: Flags)
    requires WellFormed(mem, forest) && CanLink(mem, forest, t, i, c, flags)
    ensures WellFormed(LinkTable(mem, t, i, c, flags), Linked(forest, t, i, c))
  {
    var mem', forest' := LinkTable(mem, t, i, c, flags), Linked(forest, t, i, c);
    forall u, j: Index | u in forest' && forest'[u].level >= 2 ensures EntryOk(mem', forest', u, j) {
      LinkTableEntries(mem, t, i, c, flags, u, j);
      if u != c { assert EntryOk(mem, forest, u, j); }
    }
  }

  /** Linking an empty table is invisible to every walk. */
  lemma LinkTableKeepsWalks(mem: Memory, forest: Forest, t: nat, i: Index, c: nat, flags: Flags, r: nat, p: Path)
    requires WellFormed(mem, forest) && CanLink(mem, forest, t, i, c, flags) && IsTable(forest, r, 4)
    ensures Walk(LinkTable(mem, t, i, c, flags), r, p) == Walk(mem, r, p)
  {
    var mem' := LinkTable(mem, t, i, c, flags);
    EmptyTableWalks(mem, t, i, c, flags, p);
    LinkTableEntries(mem, t, i, c, flags, r, p.i4);
    FollowLink(mem, forest, r, p.i4);
    if !(r == t && p.i4 == i) && EntryAt(mem, r, p.i4).Present() {
      LinkTableKeepsPdpt(mem, forest, t, i, c, flags, EntryAt(mem, r, p.i4).frame, p);
    }
  }

  lemma EmptyTableWalks(mem: Memory, t: nat, i: Index, c: nat, flags: Flags, p: Path)
    requires t in mem && t != c
    ensures var mem' := LinkTable(mem, t, i, c, flags);
            WalkPdpt(mem', c, p) == WalkPd(mem', c, p) == WalkPt(mem', c, p) == Unmapped
  {
    LinkTableEntries(mem, t, i, c, flags, c, p.i3);
    LinkTableEntries(mem, t, i, c, flags, c, p.i2);
    LinkTableEntries(mem, t, i, c, flags, c, p.i1);
  }

  lemma LinkTableKeepsPdpt(mem: Memory, forest: Forest, t: nat, i: Index, c: nat, flags: Flags, u: nat, p: Path)
    requires WellFormed(mem, forest) && CanLink(mem, forest, t, i, c, flags) && IsTable(forest, u, 3)
    ensures WalkPdpt(LinkTable(mem, t, i, c, flags), u, p) == WalkPdpt(mem, u, p)
  {
    EmptyTableWalks(mem, t, i, c, flags, p);
    LinkTableEntries(mem, t, i, c, flags, u, p.i3);
    FollowLink(mem, forest, u, p.i3);
    if !(u == t && p.i3 == i) && EntryAt(mem, u, p.i3).Present() {
      LinkTableKeepsPd(mem, forest, t, i, c, flags, EntryAt(mem, u, p.i3).frame, p);
    }
  }

  lemma LinkTableKeepsPd(mem: Memory, forest: Forest, t: nat, i: Index, c: nat, flags: Flags, u: nat, p: Path)
    requires WellFormed(mem, forest) && CanLink(mem, forest, t, i, c, flags) && IsTable(forest, u, 2)
    ensures WalkPd(LinkTable(mem, t, i, c, flags), u, p) == WalkPd(mem, u, p)
  {
    EmptyTableWalks(mem, t, i, c, flags, p);
    LinkTableEntries(mem, t, i, c, flags, u, p.i2);
    FollowLink(mem, forest, u, p.i2);
    if !(u == t && p.i2 == i) && Links(EntryAt(mem, u, p.i2), 2) {
      LinkTableEntries(mem, t, i, c, flags, EntryAt(mem, u, p.i2).frame, p.i1);
    }
  }

  // ---------------------------------------------------------------- marking a link as user-accessible

  function Upgraded(e: Pte): Pte
  {
    e.(flags := e.flags.(user := true))
  }

  predicate CanUpgrade(mem: Memory, forest: Forest, t: nat, i: Index)
  {
    t in forest && forest[t].level >= 2 && t in mem && Links(EntryAt(mem, t, i), forest[t].level)
  }

  lemma UpgradeWellFormed(mem: Memory, forest: Forest, t: nat, i: Index)
    requires WellFormed(mem, forest) && CanUpgrade(mem, forest, t, i)
    ensures WellFormed(WithEntry(mem, t, i, Upgraded(EntryAt(mem, t, i))), forest)
  {
    var mem' := WithEntry(mem, t, i, Upgraded(EntryAt(mem, t, i)));
    forall u, j: Index | u in forest && forest[u].level >= 2 ensures EntryOk(mem', forest, u, j) {
      EntryUpdate(mem, t, i, Upgraded(EntryAt(mem, t, i)), u, j);
      assert EntryOk(mem, forest, u, j);
    }
  }

  /** The User bit of an intermediate entry is not part of any translation. */
  lemma UpgradeKeepsWalks(mem: Memory, forest: Forest, t: nat, i: Index, r: nat, p: Path)
    requires WellFormed(mem, forest) && CanUpgrade(mem, forest, t, i) && IsTable(forest, r, 4)
    ensures Walk(WithEntry(mem, t, i, Upgraded(EntryAt(mem, t, i))), r, p) == Walk(mem, r, p)
  {
    var e := Upgraded(EntryAt(mem, t, i));
    var mem' := WithEntry(mem, t, i, e);
    FollowLink(mem, forest, r, p.i4);
    EntryUpdate(mem, t, i, e, r, p.i4);
    if EntryAt(mem, r, p.i4).Present() {
      var t3 := EntryAt(mem, r, p.i4).frame;
      FollowLink(mem, forest, t3, p.i3);
      EntryUpdate(mem, t, i, e, t3, p.i3);
      if EntryAt(mem, t3, p.i3).Present() {
        var t2 := EntryAt(mem, t3, p.i3).frame;
        FollowLink(mem, forest, t2, p.i2);
        EntryUpdate(mem, t, i, e, t2, p.i2);
        if Links(EntryAt(mem, t2, p.i2), 2) {
          EntryUpdate(mem, t, i, e, EntryAt(mem, t2, p.i2).frame, p.i1);
        }
      }
    }
  }

  // ---------------------------------------------------------------- writing a leaf

  /** The page table a path leads to from `r`, if the walk gets that far. */
  predicate Reaches(mem: Memory, r: nat, p: Path, t: nat)
  {
    var e4 := EntryAt(mem, r, p.i4);
    var e3 := EntryAt(mem, e4.frame, p.i3);
    var e2 := EntryAt(mem, e3.frame, p.i2);
    e4.Present() && e3.Present() && Links(e2, 2) && e2.frame == t
  }

  lemma LeafWellFormed(mem: Memory, forest: Forest, t: nat, i: Index, e: Pte)
    requires WellFormed(mem, forest) && IsTable(forest, t, 1) && t in mem
    ensures WellFormed(WithEntry(mem, t, i, e), forest)
  {
    var mem' := WithEntry(mem, t, i, e);
    forall u, j: Index | u in forest && forest[u].level >= 2 ensures EntryOk(mem', forest, u, j) {
      EntryUpdate(mem, t, i, e, u, j);
      assert EntryOk(mem, forest, u, j);
    }
  }

  /** Writing entry `i` of a page table changes exactly the walks that end in that entry. */
  lemma LeafWrite(mem: Memory, forest: Forest, t: nat, i: Index, e: Pte, r: nat, p: Path)
    requires WellFormed(mem, forest) && IsTable(forest, t, 1) && t in mem && IsTable(forest, r, 4)
    ensures var mem' := WithEntry(mem, t, i, e);
            && (forall u :: Reaches(mem', r, p, u) <==> Reaches(mem, r, p, u))
            && Walk(mem', r, p) == if Reaches(mem, r, p, t) && p.i1 == i
                                   then (if e.Present() then Small(e.frame, e.flags) else Unmapped)
                                   else Walk(mem, r, p)
  {
    FollowLink(mem, forest, r, p.i4);
    EntryUpdate(mem, t, i, e, r, p.i4);
    if EntryAt(mem, r, p.i4).Present() {
      var t3 := EntryAt(mem, r, p.i4).frame;
      FollowLink(mem, forest, t3, p.i3);
      EntryUpdate(mem, t, i, e, t3, p.i3);
      if EntryAt(mem, t3, p.i3).Present() {
        var t2 := EntryAt(mem, t3, p.i3).frame;
        FollowLink(mem, forest, t2, p.i2);
        EntryUpdate(mem, t, i, e, t2, p.i2);
        if Links(EntryAt(mem, t2, p.i2), 2) {
          EntryUpdate(mem, t, i, e, EntryAt(mem, t2, p.i2).frame, p.i1);
        }
      }
    }
  }

  /** A page table is reached along one path only, and in the lower half from one root only. */
  lemma ReachedOnce(mem: Memory, forest: Forest, t: nat, r: nat, p: Path, r': nat, p': Path)
    requires WellFormed(mem, forest) && IsTable(forest, r, 4) && IsTable(forest, r', 4)
    requires Reaches(mem, r, p, t) && Reaches(mem, r', p', t)
    ensures p.i4 == p'.i4 && p.i3 == p'.i3 && p.i2 == p'.i2
    ensures p.i4 < 256 ==> r == r'
    ensures EntryAt(mem, r', p'.i4).frame == EntryAt(mem, r, p.i4).frame
  {
    FollowLink(mem, forest, r, p.i4);
    FollowLink(mem, forest, r', p'.i4);
    var t3, t3' := EntryAt(mem, r, p.i4).frame, EntryAt(mem, r', p'.i4).frame;
    FollowLink(mem, forest, t3, p.i3);
    FollowLink(mem, forest, t3', p'.i3);
    var t2, t2' := EntryAt(mem, t3, p.i3).frame, EntryAt(mem, t3', p'.i3).frame;
    FollowLink(mem, forest, t2, p.i2);
    FollowLink(mem, forest, t2', p'.i2);
  }

  // ---------------------------------------------------------------- parents and user access

  /** Nodes linked from exactly one entry: all but roots and kernel-half PDPTs. */
  predicate Tracked(n: Node)
  {
    n.level <= 2 || (n.level == 3 && n.low)
  }

  /** The recorded parent entry of a tracked node is the one that leads to it. */
  predicate BackLink(mem: Memory, forest: Forest, c: nat)
    requires c in forest
  {
    var n := forest[c];
    Tracked(n) ==>
      && IsTable(forest, n.parent, n.level + 1) && 0 <= n.index < 512
      && forest[n.parent].root == n.root && (n.level < 3 ==> forest[n.parent].low == n.low)
      && Links(EntryAt(mem, n.parent, n.index), n.level + 1) && EntryAt(mem, n.parent, n.index).frame == c
  }

  ghost predicate BackLinked(mem: Memory, forest: Forest)
  {
    forall c {:trigger BackLink(mem, forest, c)} :: c in forest ==> BackLink(mem, forest, c)
  }

  /** A user entry in a tracked table has a user entry above it. */
  predicate UserAbove(mem: Memory, forest: Forest, c: nat, j: Index)
    requires c in forest
  {
    var n := forest[c];
    (1 <= n.level && Tracked(n) && 0 <= n.index < 512 && EntryAt(mem, c, j).Present() && EntryAt(mem, c, j).User()) ==>
      EntryAt(mem, n.parent, n.index).User()
  }

  ghost predicate UserClosed(mem: Memory, forest: Forest)
  {
    forall c, j: Index {:trigger UserAbove(mem, forest, c, j)} :: c in forest ==> UserAbove(mem, forest, c, j)
  }

  /** Everything the manager keeps true of its tables. */
  ghost predicate Sound(mem: Memory, forest: Forest)
  {
    WellFormed(mem, forest) && BackLinked(mem, forest) && UserClosed(mem, forest)
  }

  /** Every frame of the forest is allocated. */
  ghost predicate Held(used: seq<bool>, usable: seq<bool>, forest: Forest)
  {
    |used| == |usable| && forall f :: f in forest ==> f < |used| && used[f] && usable[f]
  }

  /** A user entry may be written into table `t`: the entry above already admits user access. */
  predicate AdmitsUser(mem: Memory, forest: Forest, t: nat)
    requires t in forest
  {
    Tracked(forest[t]) ==> 0 <= forest[t].index < 512 && EntryAt(mem, forest[t].parent, forest[t].index).User()
  }

  lemma LinkTableSound(mem: Memory, forest: Forest, t: nat, i: Index, c: nat, flags: Flags)
    requires Sound(mem, forest) && CanLink(mem, forest, t, i, c, flags)
    requires flags.user ==> AdmitsUser(mem, forest, t)
    ensures Sound(LinkTable(mem, t, i, c, flags), Linked(forest, t, i, c))
  {
    hide WellFormed, UserAbove, BackLink;
    LinkTableWellFormed(mem, forest, t, i, c, flags);
    LinkTableBackLinks(mem, forest, t, i, c, flags);
    LinkTableUserAbove(mem, forest, t, i, c, flags);
  }

  lemma LinkTableBackLinks(mem: Memory, forest: Forest, t: nat, i: Index, c: nat, flags: Flags)
    requires Sound(mem, forest) && CanLink(mem, forest, t, i, c, flags)
    ensures var mem', forest' := LinkTable(mem, t, i, c, flags), Linked(forest, t, i, c);
            forall u :: u in forest' ==> BackLink(mem', forest', u)
  {
    var mem', forest' := LinkTable(mem, t, i, c, flags), Linked(forest, t, i, c);
    forall u | u in forest' ensures BackLink(mem', forest', u) {
      var n := forest'[u];
      if u != c {
        assert BackLink(mem, forest, u);
        if Tracked(n) { LinkTableEntries(mem, t, i, c, flags, n.parent, n.index); }
      }
    }
  }

  lemma LinkTableUserAbove(mem: Memory, forest: Forest, t: nat, i: Index, c: nat, flags: Flags)
    requires Sound(mem, forest) && CanLink(mem, forest, t, i, c, flags)
    requires flags.user ==> AdmitsUser(mem, forest, t)
    ensures var mem', forest' := LinkTable(mem, t, i, c, flags), Linked(forest, t, i, c);
            forall u, j: Index :: u in forest' ==> UserAbove(mem', forest', u, j)
  {
    var mem', forest' := LinkTable(mem, t, i, c, flags), Linked(forest, t, i, c);
    forall u, j: Index | u in forest' ensures UserAbove(mem', forest', u, j) {
      LinkTableEntries(mem, t, i, c, flags, u, j);
      if u != c {
        assert UserAbove(mem, forest, u, j) && BackLink(mem, forest, u);
        var n := forest'[u];
        if Tracked(n) { LinkTableEntries(mem, t, i, c, flags, n.parent, n.index); }
      }
    }
  }

  lemma UpgradeSound(mem: Memory, forest: Forest, t: nat, i: Index)
    requires Sound(mem, forest) && CanUpgrade(mem, forest, t, i) && AdmitsUser(mem, forest, t)
    ensures Sound(WithEntry(mem, t, i, Upgraded(EntryAt(mem, t, i))), forest)
  {
    var e := Upgraded(EntryAt(mem, t, i));
    var mem' := WithEntry(mem, t, i, e);
    UpgradeWellFormed(mem, forest, t, i);
    forall u | u in forest ensures BackLink(mem', forest, u) {
      var n := forest[u];
      assert BackLink(mem, forest, u);
      if Tracked(n) { EntryUpdate(mem, t, i, e, n.parent, n.index); }
    }
    forall u, j: Index | u in forest ensures UserAbove(mem', forest, u, j) {
      EntryUpdate(mem, t, i, e, u, j);
      assert UserAbove(mem, forest, u, j) && BackLink(mem, forest, u);
      var n := forest[u];
      if Tracked(n) { EntryUpdate(mem, t, i, e, n.parent, n.index); }
    }
  }

  /** No owned data frame hangs on entry `i` of `t`. */
  predicate NoOwnerAt(forest: Forest, t: nat, i: Index)
  {
    forall f :: f in forest && forest[f].level == 0 ==> !(forest[f].parent == t && forest[f].index == i)
  }

  lemma LeafSound(mem: Memory, forest: Forest, t: nat, i: Index, e: Pte)
    requires Sound(mem, forest) && IsTable(forest, t, 1) && t in mem && NoOwnerAt(forest, t, i)
    requires e.User() ==> AdmitsUser(mem, forest, t)
    ensures Sound(WithEntry(mem, t, i, e), forest)
  {
    var mem' := WithEntry(mem, t, i, e);
    LeafWellFormed(mem, forest, t, i, e);
    forall u | u in forest ensures BackLink(mem', forest, u) {
      var n := forest[u];
      assert BackLink(mem, forest, u);
      if Tracked(n) { EntryUpdate(mem, t, i, e, n.parent, n.index); }
    }
    forall u, j: Index | u in forest ensures UserAbove(mem', forest, u, j) {
      EntryUpdate(mem, t, i, e, u, j);
      assert UserAbove(mem, forest, u, j) && BackLink(mem, forest, u);
      var n := forest[u];
      if Tracked(n) { EntryUpdate(mem, t, i, e, n.parent, n.index); }
    }
  }

  /** Access rights of a whole path: every level must grant them (section 4.6 of the Intel SDM, Volume 3A). */
  datatype Rights = Rights(user: bool, writable: bool, executable: bool)

  function PathRights(mem: Memory, r: nat, p: Path): Rights
  {
    var e4 := EntryAt(mem, r, p.i4);
    var e3 := EntryAt(mem, e4.frame, p.i3);
    var e2 := EntryAt(mem, e3.frame, p.i2);
    var e1 := EntryAt(mem, e2.frame, p.i1);
    Rights(e4.User() && e3.User() && e2.User() && e1.User(),
           e4.Writable() && e3.Writable() && e2.Writable() && e1.Writable(),
           !e4.NoExecute() && !e3.NoExecute() && !e2.NoExecute() && !e1.NoExecute())
  }

  /** In the lower half, the flags a walk reports are the rights of the whole path. */
  lemma LeafFlagsAreRights(mem: Memory, forest: Forest, r: nat, p: Path)
    requires Sound(mem, forest) && IsTable(forest, r, 4) && p.i4 < 256 && Walk(mem, r, p) != Unmapped
    ensures Walk(mem, r, p).Small?
    ensures var f := Walk(mem, r, p).flags;
            PathRights(mem, r, p) == Rights(f.user, f.writable, !f.noExecute)
  {
    var t3 := EntryAt(mem, r, p.i4).frame;
    assert EntryOk(mem, forest, r, p.i4);
    var t2 := EntryAt(mem, t3, p.i3).frame;
    assert EntryOk(mem, forest, t3, p.i3) && UserAbove(mem, forest, t3, p.i3);
    var t1 := EntryAt(mem, t2, p.i2).frame;
    assert EntryOk(mem, forest, t2, p.i2) && UserAbove(mem, forest, t2, p.i2);
    assert UserAbove(mem, forest, t1, p.i1);
  }

  // ---------------------------------------------------------------- comparing two states

  ghost predicate SameWalks(mem: Memory, mem': Memory, forest: Forest)
  {
    forall r, p {:trigger Walk(mem', r, p)} :: IsTable(forest, r, 4) ==> Walk(mem', r, p) == Walk(mem, r, p)
  }

  lemma SameWalksSelf(mem: Memory, forest: Forest)
    ensures SameWalks(mem, mem, forest)
  {
    hide Walk;
  }

  /** Nodes are only added, and no root is. */
  ghost predicate Grown(forest: Forest, forest': Forest)
  {
    && (forall x :: x in forest ==> x in forest' && forest'[x] == forest[x])
    && (forall x :: x in forest' && x !in forest ==> 1 <= forest'[x].level < 4)
  }

  /** Only frames that are tables in `forest` differ. */
  ghost predicate OnlyTablesDiffer(mem: Memory, mem': Memory, forest: Forest)
  {
    && mem'.Keys == mem.Keys
    && forall f :: f in mem && mem'[f] != mem[f] ==> f in forest && forest[f].level >= 1
  }

  /** The new nodes lie under `root`, in its lower half if `low`. */
  ghost predicate GrownUnder(forest: Forest, forest': Forest, root: nat, low: bool)
  {
    forall x :: x in forest' && x !in forest ==> (low ==> forest'[x].root == root) && forest'[x].low == low
  }

  lemma SameWalksTrans(m0: Memory, f0: Forest, m1: Memory, f1: Forest, m2: Memory)
    requires SameWalks(m0, m1, f0) && Grown(f0, f1) && SameWalks(m1, m2, f1)
    ensures SameWalks(m0, m2, f0)
  {
    forall r, p | IsTable(f0, r, 4) ensures Walk(m2, r, p) == Walk(m0, r, p) {
      assert IsTable(f1, r, 4);
      assert Walk(m1, r, p) == Walk(m0, r, p);
    }
  }

  lemma OnlyTablesTrans(m0: Memory, m1: Memory, f1: Forest, m2: Memory, f2: Forest)
    requires OnlyTablesDiffer(m0, m1, f1) && Grown(f1, f2) && OnlyTablesDiffer(m1, m2, f2)
    ensures OnlyTablesDiffer(m0, m2, f2)
  {
  }

  // ---------------------------------------------------------------- how far a path is built

  /** Tables present along a path: none below the root, the PDPT, the page directory too, or all three. */
  function Depth(mem: Memory, r: nat, p: Path): (d: nat)
    ensures d <= 3
  {
    var e4 := EntryAt(mem, r, p.i4);
    var e3 := EntryAt(mem, e4.frame, p.i3);
    var e2 := EntryAt(mem, e3.frame, p.i2);
    if !e4.Present() then 0 else if !e3.Present() then 1 else if !Links(e2, 2) then 2 else 3
  }

  /** Leading indices two paths have in common, of the three that select tables. */
  function Common(p: Path, q: Path): (n: nat)
    ensures n <= 3
  {
    if p.i4 != q.i4 then 0 else if p.i3 != q.i3 then 1 else if p.i2 != q.i2 then 2 else 3
  }

  function Bigger(a: nat, b: nat): nat
  {
    if a > b then a else b
  }

  function Lesser(a: nat, b: nat): nat
  {
    if a < b then a else b
  }

  /** In the lower half of `r` exactly the tables along `p`, as far as they now go, joined. */
  ghost predicate Deepened(mem: Memory, mem': Memory, r: nat, p: Path)
  {
    && Depth(mem, r, p) <= Depth(mem', r, p)
    && forall q: Path {:trigger Depth(mem', r, q)} ::
         q.i4 < 256 ==> Depth(mem', r, q) == Bigger(Depth(mem, r, q), Lesser(Common(p, q), Depth(mem', r, p)))
  }

  lemma DeepenedNothing(mem: Memory, r: nat, p: Path)
    ensures Deepened(mem, mem, r, p)
  {
    forall q: Path | q.i4 < 256
      ensures Depth(mem, r, q) >= Lesser(Common(p, q), Depth(mem, r, p))
    {
      CommonDepth(mem, r, p, q);
    }
  }

  /** Paths are built alike as far as they agree. */
  lemma CommonDepth(mem: Memory, r: nat, p: Path, q: Path)
    ensures Lesser(Common(p, q), Depth(mem, r, p)) == Lesser(Common(p, q), Depth(mem, r, q))
  {
  }

  lemma DeepenedTrans(m0: Memory, m1: Memory, m2: Memory, r: nat, p: Path)
    requires Deepened(m0, m1, r, p) && Deepened(m1, m2, r, p)
    ensures Deepened(m0, m2, r, p)
  {
    hide Depth, Common;
    forall q: Path | q.i4 < 256
      ensures Depth(m2, r, q) == Bigger(Depth(m0, r, q), Lesser(Common(p, q), Depth(m2, r, p)))
    {
      assert Depth(m1, r, q) == Bigger(Depth(m0, r, q), Lesser(Common(p, q), Depth(m1, r, p)));
    }
  }

  /** Depths are a matter of entries of tables of level two and above. */
  lemma SameDepth(mem: Memory, mem': Memory, forest: Forest, r: nat, q: Path)
    requires WellFormed(mem, forest) && IsTable(forest, r, 4)
    requires forall t, i: Index {:trigger EntryAt(mem', t, i)} :: t in forest && forest[t].level >= 2 ==>
               EntryAt(mem', t, i) == EntryAt(mem, t, i)
    ensures Depth(mem', r, q) == Depth(mem, r, q)
  {
    FollowLink(mem, forest, r, q.i4);
    var t3 := EntryAt(mem, r, q.i4).frame;
    if EntryAt(mem, r, q.i4).Present() {
      FollowLink(mem, forest, t3, q.i3);
    }
  }

  /** Table `t` is where the path stands after `d` steps. */
  predicate StandsAt(mem: Memory, r: nat, p: Path, d: nat, t: nat)
  {
    Depth(mem, r, p) >= d && t ==
      if d == 0
         then r
           else if d == 1 then EntryAt(mem, r, p.i4).frame else EntryAt(mem, EntryAt(mem, r, p.i4).frame, p.i3).frame
  }

  function Turn(p: Path, d: nat): Index
  {
    if d == 0 then p.i4 else if d == 1 then p.i3 else p.i2
  }

  /** One table ensured along the path: it is there now, and nothing else joined. */
  lemma StepDeepens(mem: Memory, forest: Forest, mem': Memory, r: nat, p: Path, d: nat, t: nat)
    requires WellFormed(mem, forest) && IsTable(forest, r, 4) && d < 3 && StandsAt(mem, r, p, d, t) && t in forest
    requires OnlyEntryDiffers(mem, mem', forest, t, Turn(p, d))
    requires var e, e' := EntryAt(mem, t, Turn(p, d)), EntryAt(mem', t, Turn(p, d));
             && Links(e', 4 - d) && (e.Present() ==> Links(e, 4 - d) && e'.frame == e.frame)
             && (!e.Present() ==> e'.frame !in forest && forall j: Index :: !EntryAt(mem', e'.frame, j).Present())
    ensures Depth(mem', r, p) == Bigger(Depth(mem, r, p), d + 1) && (p.i4 < 256 ==> Deepened(mem, mem', r, p))
  {
    StepDepth(mem, forest, mem', r, p, d, t, p);
    forall q: Path | p.i4 < 256 && q.i4 < 256
      ensures Depth(mem', r, q) == Bigger(Depth(mem, r, q), Lesser(Common(p, q), d + 1))
    {
      StepDepth(mem, forest, mem', r, p, d, t, q);
    }
    forall q: Path | p.i4 < 256 && q.i4 < 256
      ensures Depth(mem', r, q) == Bigger(Depth(mem, r, q), Lesser(Common(p, q), Depth(mem', r, p)))
    {
      CommonDepth(mem, r, p, q);
    }
  }

  lemma StepDepth(mem: Memory, forest: Forest, mem': Memory, r: nat, p: Path, d: nat, t: nat, q: Path)
    requires WellFormed(mem, forest) && IsTable(forest, r, 4) && d < 3 && StandsAt(mem, r, p, d, t) && t in forest
    requires OnlyEntryDiffers(mem, mem', forest, t, Turn(p, d)) && (q == p || (p.i4 < 256 && q.i4 < 256))
    requires var e, e' := EntryAt(mem, t, Turn(p, d)), EntryAt(mem', t, Turn(p, d));
             && Links(e', 4 - d) && (e.Present() ==> Links(e, 4 - d) && e'.frame == e.frame)
             && (!e.Present() ==> e'.frame !in forest && forall j: Index :: !EntryAt(mem', e'.frame, j).Present())
    ensures Depth(mem', r, q) == Bigger(Depth(mem, r, q), Lesser(Common(p, q), d + 1))
  {
    FollowLink(mem, forest, r, p.i4);
    FollowLink(mem, forest, r, q.i4);
    if EntryAt(mem, r, p.i4).Present() { FollowLink(mem, forest, EntryAt(mem, r, p.i4).frame, p.i3); }
    var f4 := EntryAt(mem, r, q.i4);
    assert EntryAt(mem', r, q.i4) == f4 || (d == 0 && q.i4 == p.i4);
    if f4.Present() {
      FollowLink(mem, forest, f4.frame, q.i3);
      var f3 := EntryAt(mem, f4.frame, q.i3);
      assert EntryAt(mem', f4.frame, q.i3) == f3 || (f4.frame == t && q.i3 == Turn(p, d));
      if f3.Present() {
        FollowLink(mem, forest, f3.frame, q.i2);
        assert EntryAt(mem', f3.frame, q.i2) == EntryAt(mem, f3.frame, q.i2) || (f3.frame == t && q.i2 == Turn(p, d));
      }
    }
  }

  /** Physical memory, the forest recorded for it, and the allocator's bitmap. */
  datatype View = View(mem: Memory, forest: Forest, used: seq<bool>)

  /** Exactly the frames that joined the forest were taken from the allocator. */
  ghost predicate TakenForTables(a: View, b: View)
  {
    && |b.used| == |a.used|
    && (forall f :: 0 <= f < |a.used| ==> b.used[f] == (a.used[f] || (f in b.forest && f !in a.forest)))
    && (forall f :: f in b.forest && f !in a.forest ==> f < |a.used| && !a.used[f])
  }

  /** Tables linked from a root stay linked where they were. */
  ghost predicate TopKept(mem: Memory, mem': Memory, forest: Forest)
  {
    forall r, i: Index {:trigger EntryAt(mem', r, i)} :: IsTable(forest, r, 4) && EntryAt(mem, r, i).Present() ==>
      EntryAt(mem', r, i).Present() && EntryAt(mem', r, i).frame == EntryAt(mem, r, i).frame
  }

  lemma TopKeptTrans(m0: Memory, f0: Forest, m1: Memory, f1: Forest, m2: Memory)
    requires TopKept(m0, m1, f0) && Grown(f0, f1) && TopKept(m1, m2, f1)
    ensures TopKept(m0, m2, f0)
  {
    forall r, i: Index | IsTable(f0, r, 4) && EntryAt(m0, r, i).Present()
      ensures EntryAt(m2, r, i).Present() && EntryAt(m2, r, i).frame == EntryAt(m0, r, i).frame
    {
      assert IsTable(f1, r, 4) && EntryAt(m1, r, i).Present();
    }
  }

  lemma LinkTopKept(mem: Memory, forest: Forest, t: nat, i: Index, c: nat, flags: Flags)
    requires CanLink(mem, forest, t, i, c, flags) && c in mem
    ensures TopKept(mem, LinkTable(mem, t, i, c, flags), forest)
  {
    forall r, j: Index | IsTable(forest, r, 4) && EntryAt(mem, r, j).Present()
      ensures EntryAt(LinkTable(mem, t, i, c, flags), r, j) == EntryAt(mem, r, j)
    {
      LinkTableEntries(mem, t, i, c, flags, r, j);
    }
  }

  lemma EntryTopKept(mem: Memory, forest: Forest, t: nat, i: Index, e: Pte)
    requires t in mem
             && (IsTable(forest, t, 4) && EntryAt(mem, t, i).Present() ==>
                  e.Present() && e.frame == EntryAt(mem, t, i).frame)
    ensures TopKept(mem, WithEntry(mem, t, i, e), forest)
  {
    forall r, j: Index | IsTable(forest, r, 4) && EntryAt(mem, r, j).Present()
      ensures EntryAt(WithEntry(mem, t, i, e), r, j).Present()
              && EntryAt(WithEntry(mem, t, i, e), r, j).frame == EntryAt(mem, r, j).frame
    {
      EntryUpdate(mem, t, i, e, r, j);
    }
  }

  /** `b` differs from `a` by new empty tables and user bits of intermediate entries at most. */
  ghost predicate Extends(a: View, b: View, root: nat, low: bool)
  {
    && SameWalks(a.mem, b.mem, a.forest) && Grown(a.forest, b.forest) && OnlyTablesDiffer(a.mem, b.mem, b.forest)
    && GrownUnder(a.forest, b.forest, root, low) && TakenForTables(a, b) && TopKept(a.mem, b.mem, a.forest)
  }

  lemma ExtendsTrans(a: View, b: View, c: View, root: nat, low: bool)
    requires Extends(a, b, root, low) && Extends(b, c, root, low)
    ensures Extends(a, c, root, low)
  {
    SameWalksTrans(a.mem, a.forest, b.mem, b.forest, c.mem);
    OnlyTablesTrans(a.mem, b.mem, b.forest, c.mem, c.forest);
    TopKeptTrans(a.mem, a.forest, b.mem, b.forest, c.mem);
    forall f | f in c.forest && f !in a.forest ensures f < |a.used| && !a.used[f] {
      if f !in b.forest { assert f < |b.used| && !b.used[f]; }
    }
  }

  lemma LinkTableExtends(mem: Memory, forest: Forest, used: seq<bool>, t: nat, i: Index, c: nat, flags: Flags)
    requires WellFormed(mem, forest) && CanLink(mem, forest, t, i, c, flags) && c in mem && c < |used| && !used[c]
    ensures var n := forest[t];
            Extends(View(mem, forest, used),
              View(LinkTable(mem, t, i, c, flags), Linked(forest, t, i, c), used[c := true]),
                    n.root, if n.level == 4 then i < 256 else n.low)
  {
    forall r, p | IsTable(forest, r, 4) ensures Walk(LinkTable(mem, t, i, c, flags), r, p) == Walk(mem, r, p) {
      LinkTableKeepsWalks(mem, forest, t, i, c, flags, r, p);
    }
    LinkTopKept(mem, forest, t, i, c, flags);
  }

  lemma UpgradeExtends(mem: Memory, forest: Forest, used: seq<bool>, t: nat, i: Index, root: nat, low: bool)
    requires WellFormed(mem, forest) && CanUpgrade(mem, forest, t, i)
    ensures Extends(View(mem, forest, used), View(WithEntry(mem, t, i, Upgraded(EntryAt(mem, t, i))), forest, used),
              root, low)
  {
    forall r, p | IsTable(forest, r, 4)
      ensures Walk(WithEntry(mem, t, i, Upgraded(EntryAt(mem, t, i))), r, p) == Walk(mem, r, p)
    {
      UpgradeKeepsWalks(mem, forest, t, i, r, p);
    }
    EntryTopKept(mem, forest, t, i, Upgraded(EntryAt(mem, t, i)));
  }

  /** The table an existing walk goes through stays the same table. */
  lemma ExtendsNothing(a: View, root: nat, low: bool)
    ensures Extends(a, a, root, low)
  {
  }

  /** No table of `forest` differs, except possibly in entry `i` of `t`. */
  ghost predicate OnlyEntryDiffers(mem: Memory, mem': Memory, forest: Forest, t: nat, i: Index)
  {
    forall u, j: Index {:trigger EntryAt(mem', u, j)} ::
      u in forest && !(u == t && j == i) ==> EntryAt(mem', u, j) == EntryAt(mem, u, j)
  }

  lemma LinkTableOnlyEntry(mem: Memory, forest: Forest, t: nat, i: Index, c: nat, flags: Flags)
    requires t in mem && c !in forest && t in forest
    ensures OnlyEntryDiffers(mem, LinkTable(mem, t, i, c, flags), forest, t, i)
  {
    forall u, j: Index | u in forest && !(u == t && j == i)
      ensures EntryAt(LinkTable(mem, t, i, c, flags), u, j) == EntryAt(mem, u, j)
    {
      LinkTableEntries(mem, t, i, c, flags, u, j);
    }
  }

  lemma WithEntryOnlyEntry(mem: Memory, forest: Forest, t: nat, i: Index, e: Pte)
    requires t in mem
    ensures OnlyEntryDiffers(mem, WithEntry(mem, t, i, e), forest, t, i)
  {
    forall u, j: Index | u in forest && !(u == t && j == i)
      ensures EntryAt(WithEntry(mem, t, i, e), u, j) == EntryAt(mem, u, j)
    {
      EntryUpdate(mem, t, i, e, u, j);
    }
  }

  lemma TableInMemory(mem: Memory, forest: Forest, t: nat)
    requires Sound(mem, forest) && t in forest && forest[t].level >= 1
    ensures t in mem
  {
  }

  lemma ExtendsAnyRoot(a: View, b: View, root: nat, root': nat)
    requires Extends(a, b, root, false)
    ensures Extends(a, b, root', false)
  {
  }

  /** One step down the path: the child table is where the next step may start. */
  lemma StepDown(mem: Memory, forest: Forest, t: nat, i: Index, c: nat, user: bool)
    requires Sound(mem, forest) && t in forest && forest[t].level >= 2
    requires Links(EntryAt(mem, t, i), forest[t].level) && EntryAt(mem, t, i).frame == c
    requires user ==> EntryAt(mem, t, i).User()
    ensures c in forest && forest[c].level == forest[t].level - 1
    ensures user ==> AdmitsUser(mem, forest, c)
    ensures forest[t].level == 4 ==> forest[c].low == (i < 256) && (i < 256 ==> forest[c].root == forest[t].root)
    ensures forest[t].level < 4 ==> forest[c].low == forest[t].low && forest[c].root == forest[t].root
    ensures forest[c].level >= 3 ==> forall j: Index :: !EntryAt(mem, c, j).Huge()
  {
    FollowLink(mem, forest, t, i);
    forall j: Index | forest[c].level >= 3 ensures !EntryAt(mem, c, j).Huge() {
      assert EntryOk(mem, forest, c, j);
    }
  }

  lemma RootNotHuge(mem: Memory, forest: Forest, r: nat, i: Index)
    requires Sound(mem, forest) && IsTable(forest, r, 4)
    ensures !EntryAt(mem, r, i).Huge() && !Tracked(forest[r]) && forest[r].root == r
  {
    assert EntryOk(mem, forest, r, i);
  }

  /** Root `r'` has the same table below entry `i` as `r`. */
  predicate Shares(mem: Memory, r: nat, r': nat, i: Index)
  {
    EntryAt(mem, r', i).Present() && EntryAt(mem, r', i).frame == EntryAt(mem, r, i).frame
  }

  /** The page at `p` changed under exactly the roots that share the table `r` has there. */
  ghost predicate ChangedWhereShared(mem: Memory, mem': Memory, forest: Forest, r: nat, p: Path, leaf: Leaf)
  {
    forall r' {:trigger Walk(mem', r', p)} ::
      IsTable(forest, r', 4) ==> Walk(mem', r', p) == if Shares(mem', r, r', p.i4) then leaf else Walk(mem, r', p)
  }

  /** From `a` to `b` one unmapped page became `leaf` under root `r`, and no other translation changed.
      A kernel-half page appears under the roots that share `r`'s table, a lower-half page under `r` only. */
  ghost predicate MapsOnly(a: View, b: View, r: nat, p: Path, leaf: Leaf)
  {
    && Walk(a.mem, r, p) == Unmapped && Walk(b.mem, r, p) == leaf
    && (forall r', p' {:trigger Walk(b.mem, r', p')} ::
          IsTable(a.forest, r', 4) && !(p' == p && (r' == r || p.i4 >= 256)) ==>
            Walk(b.mem, r', p') == Walk(a.mem, r', p'))
    && ChangedWhereShared(a.mem, b.mem, a.forest, r, p, leaf)
    && Grown(a.forest, b.forest) && OnlyTablesDiffer(a.mem, b.mem, b.forest)
    && GrownUnder(a.forest, b.forest, r, p.i4 < 256) && TakenForTables(a, b) && TopKept(a.mem, b.mem, a.forest)
  }

  /** Writing one leaf entry shows under exactly the roots that share the table. */
  lemma LeafShared(mem: Memory, forest: Forest, t: nat, e: Pte, r: nat, p: Path, r': nat)
    requires Sound(mem, forest) && IsTable(forest, r, 4) && IsTable(forest, r', 4) && IsTable(forest, t, 1) && t in mem
             && Reaches(mem, r, p, t)
    ensures var mem' := WithEntry(mem, t, p.i1, e);
            Walk(mem', r', p) ==
              if Shares(mem', r, r', p.i4)
                 then (if e.Present() then Small(e.frame, e.flags) else Unmapped) else Walk(mem, r', p)
  {
    hide Walk;
    LeafWrite(mem, forest, t, p.i1, e, r', p);
    EntryUpdate(mem, t, p.i1, e, r', p.i4);
    EntryUpdate(mem, t, p.i1, e, r, p.i4);
    if Reaches(mem, r', p, t) { ReachedOnce(mem, forest, t, r, p, r', p); }
  }

  lemma LeafMaps(a: View, mid: View, t: nat, e: Pte, r: nat, p: Path)
    requires Extends(a, mid, r, p.i4 < 256) && Sound(mid.mem, mid.forest) && IsTable(a.forest, r, 4)
    requires IsTable(mid.forest, t, 1) && Reaches(mid.mem, r, p, t) && t in mid.mem
    requires !EntryAt(mid.mem, t, p.i1).Present() && e.Present()
    ensures MapsOnly(a, View(WithEntry(mid.mem, t, p.i1, e), mid.forest, mid.used), r, p, Small(e.frame, e.flags))
  {
    var mem' := WithEntry(mid.mem, t, p.i1, e);
    assert IsTable(mid.forest, r, 4);
    assert Walk(mid.mem, r, p) == Walk(a.mem, r, p);
    LeafWrite(mid.mem, mid.forest, t, p.i1, e, r, p);
    forall r', p' | IsTable(a.forest, r', 4) && !(p' == p && (r' == r || p.i4 >= 256))
      ensures Walk(mem', r', p') == Walk(a.mem, r', p')
    {
      assert Walk(mid.mem, r', p') == Walk(a.mem, r', p');
      LeafWrite(mid.mem, mid.forest, t, p.i1, e, r', p');
      if Reaches(mid.mem, r', p', t) && p'.i1 == p.i1 {
        ReachedOnce(mid.mem, mid.forest, t, r, p, r', p');
      }
    }
    forall r' | IsTable(a.forest, r', 4)
      ensures Walk(mem', r', p) == if Shares(mem', r, r', p.i4) then Small(e.frame, e.flags) else Walk(a.mem, r', p)
    {
      assert Walk(mid.mem, r', p) == Walk(a.mem, r', p);
      LeafShared(mid.mem, mid.forest, t, e, r, p, r');
    }
    EntryTopKept(mid.mem, mid.forest, t, p.i1, e);
    TopKeptTrans(a.mem, a.forest, mid.mem, mid.forest, mem');
  }

  /** An absent leaf entry has no recorded owner. */
  lemma AbsentHasNoOwner(mem: Memory, forest: Forest, t: nat, i: Index)
    requires Sound(mem, forest) && !EntryAt(mem, t, i).Present()
    ensures NoOwnerAt(forest, t, i)
  {
    forall f | f in forest && forest[f].level == 0 ensures !(forest[f].parent == t && forest[f].index == i) {
      assert BackLink(mem, forest, f);
    }
  }

  /** One 4 KiB page disappeared under `r` and the roots that share its table there, and no other translation
      changed. */
  ghost predicate UnmapsOnly(mem: Memory, mem': Memory, forest: Forest, r: nat, p: Path)
  {
    && Walk(mem, r, p).Small? && Walk(mem', r, p) == Unmapped
    && (forall r', p' {:trigger Walk(mem', r', p')} ::
          IsTable(forest, r', 4) && !(p' == p && (r' == r || p.i4 >= 256)) ==> Walk(mem', r', p') == Walk(mem, r', p'))
    && ChangedWhereShared(mem, mem', forest, r, p, Unmapped)
    && OnlyTablesDiffer(mem, mem', forest) && TopKept(mem, mem', forest)
  }

  lemma ClearUnmaps(mem: Memory, forest: Forest, t: nat, r: nat, p: Path)
    requires Sound(mem, forest) && IsTable(forest, r, 4) && IsTable(forest, t, 1) && t in mem
    requires Reaches(mem, r, p, t) && EntryAt(mem, t, p.i1).Present()
    ensures UnmapsOnly(mem, WithEntry(mem, t, p.i1, EMPTY), forest, r, p)
  {
    LeafWrite(mem, forest, t, p.i1, EMPTY, r, p);
    forall r', p' | IsTable(forest, r', 4) && !(p' == p && (r' == r || p.i4 >= 256))
      ensures Walk(WithEntry(mem, t, p.i1, EMPTY), r', p') == Walk(mem, r', p')
    {
      LeafWrite(mem, forest, t, p.i1, EMPTY, r', p');
      if Reaches(mem, r', p', t) && p'.i1 == p.i1 {
        ReachedOnce(mem, forest, t, r, p, r', p');
      }
    }
    forall r' | IsTable(forest, r', 4)
      ensures var mem' := WithEntry(mem, t, p.i1, EMPTY);
              Walk(mem', r', p) == if Shares(mem', r, r', p.i4) then Unmapped else Walk(mem, r', p)
    {
      LeafShared(mem, forest, t, EMPTY, r, p, r');
    }
    EntryTopKept(mem, forest, t, p.i1, EMPTY);
  }

  /** Owned data frames belong to the lower half of other roots than `r`. */
  ghost predicate OwnersElsewhere(forest: Forest, r: nat)
  {
    forall f :: f in forest && forest[f].level == 0 ==> forest[f].low && forest[f].root != r
  }

  /** The page table reached from a root, as the forest records it. */
  lemma ReachedTable(mem: Memory, forest: Forest, r: nat, p: Path, t: nat)
    requires Sound(mem, forest) && IsTable(forest, r, 4) && Reaches(mem, r, p, t)
    ensures IsTable(forest, t, 1) && t in mem && forest[t].low == (p.i4 < 256) && (p.i4 < 256 ==> forest[t].root == r)
  {
    FollowLink(mem, forest, r, p.i4);
    var t3 := EntryAt(mem, r, p.i4).frame;
    FollowLink(mem, forest, t3, p.i3);
    var t2 := EntryAt(mem, t3, p.i3).frame;
    FollowLink(mem, forest, t2, p.i2);
  }

  lemma NoOwnerUnder(mem: Memory, forest: Forest, r: nat, p: Path, t: nat)
    requires Sound(mem, forest) && IsTable(forest, r, 4) && Reaches(mem, r, p, t) && OwnersElsewhere(forest, r)
    ensures NoOwnerAt(forest, t, p.i1)
  {
    ReachedTable(mem, forest, r, p, t);
    forall f | f in forest && forest[f].level == 0 ensures !(forest[f].parent == t && forest[f].index == p.i1) {
      assert BackLink(mem, forest, f);
    }
  }
}
