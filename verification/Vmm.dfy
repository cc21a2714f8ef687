/** Page-table operations of kernel/mm/vmm.c, over the frame allocator. */
module Vmm {
  import opened Sv39
  import opened PageTrees
  import opened Budget
  import opened Pmm
  import opened Platform

  /**
    What an operation that only adds to tree `r` may do: free frames may get a role in that tree,
    every other role stays, and of the frames in use only tables of that tree are written.
   */
  ghost predicate TreeGrowth(mem: Mem, owner: Owners, mem': Mem, owner': Owners, r: nat)
  {
    && |mem| == |mem'| == |owner| == |owner'| == TOTAL_PAGES
    && (forall f {:trigger owner'[f]} | 0 <= f < TOTAL_PAGES ::
          if owner[f] != Free then owner'[f] == owner[f]
          else owner'[f] == Free || (owner'[f].Node? && owner'[f].root == r && owner'[f].path.Step?))
    && (forall f {:trigger mem'[f]} | 0 <= f < TOTAL_PAGES ::
          owner[f] != Free && !(IsTable(owner[f]) && owner[f].root == r) ==> mem'[f] == mem[f])
  }

  /** The page-table walk of the kernel and of `map_page`, `level` steps above the last one. */
  function PathAbove(va: nat, level: nat): (p: Path)
    requires level <= 3
    ensures p.Valid() && p.Depth() == 3 - level
    decreases 3 - level
  {
    if level == 3 then Top else Step(PathAbove(va, level + 1), Vpn(va, level))
  }

  /** The tables the walk has been through when it is about to look at `level`. */
  function Passed(va: nat, level: nat): set<Path>
    requires level <= 2
    decreases 2 - level
  {
    if level == 2 then {} else Passed(va, level + 1) + {PathAbove(va, level + 1)}
  }

  lemma PassedAll(va: nat)
    ensures Passed(va, 0) == Prefixes(VpnPath(va)) && Passed(va, 1) == {VpnPath(va).up.up}
    ensures PathAbove(va, 2) == VpnPath(va).up.up && PathAbove(va, 1) == VpnPath(va).up
  {
    hide Vpn;
    assert PathAbove(va, 2) == Step(PathAbove(va, 3), Vpn(va, 2)) && PathAbove(va, 3) == Top;
    assert Passed(va, 2) == {} && Passed(va, 1) == Passed(va, 2) + {PathAbove(va, 2)};
  }

  lemma AtTheTop(va: nat)
    ensures PathAbove(va, 3) == Top && Passed(va, 2) == {}
  {
  }

  lemma OneLevelDown(va: nat, level: nat)
    requires 0 < level <= 2
    ensures PathAbove(va, level) == Step(PathAbove(va, level + 1), Vpn(va, level))
    ensures Passed(va, level - 1) == Passed(va, level) + {PathAbove(va, level)}
  {
    hide Vpn;
  }

  /** The walk stops for want of a frame where a table is missing: the way to the page could not be paid for. */
  lemma OutOfTables(owner: Owners, owner1: Owners, r: nat, va: nat, level: nat)
    requires 0 < level <= 2 && Spent(owner, owner1, r, Passed(va, level), 0)
    requires NoFree(owner1) && PathAbove(va, level) !in Tables(owner1, r)
    ensures Short(owner, r, Prefixes(VpnPath(va)), 0)
  {
    hide Tables, FreeFrames, NoFree;
    PassedAll(va);
    NoFreeIsZero(owner1);
    var next := PathAbove(va, level);
    assert {next} - Tables(owner1, r) == {next};
    SpentThenShort(owner, owner1, r, Passed(va, level), 0, {next}, 0);
    ShortOfMore(owner, r, Passed(va, level) + {next}, 0, Prefixes(VpnPath(va)), 0);
  }

  /** What becomes of a user page that is mapped over: its frame is dropped, not freed. */
  function Displaced(mem: Mem, owner: Owners, r: nat, p: Path): Owners
    requires p.Step?
  {
    var w := Entry(mem, r, p);
    if UserLeaf(w) && 0 <= Target(w) < |owner| then owner[Target(w) := Lost] else owner
  }

  /** A user page written over in one step is as if it had been unmapped first. */
  lemma OverLeaf(mem: Mem, owner: Owners, f: nat, i: nat, w: Word)
    requires Forest(mem, owner) && f < TOTAL_PAGES && i < ENTRIES && owner[f].Node? && owner[f].path.Depth() == 2
    requires TableShape(mem[f])
    requires UserLeaf(mem[f].e[i]) && NewLeafOk(mem, owner, Step(owner[f].path, i), w)
    ensures var (r, p) := (owner[f].root, Step(owner[f].path, i));
      var (cleared, d) := (WriteEntry(mem, f, i, 0), Displaced(mem, owner, r, p));
      && d[f] == owner[f] && CanMap(cleared, d, f, i, w) && WriteEntry(cleared, f, i, w) == WriteEntry(mem, f, i, w)
      && SameLeavesBut(mem, WriteEntry(mem, f, i, w), owner, r, p)
      && forall h: nat {:trigger d[h]} | h < TOTAL_PAGES :: d[h] == Free <==> owner[h] == Free
  {
    hide V, Leaf, R, W, X, U, Target, EntriesOk, EntryOk, NodeOk;
    var r, p := owner[f].root, Step(owner[f].path, i);
    var t := Target(mem[f].e[i]);
    var cleared, d := WriteEntry(mem, f, i, 0), Displaced(mem, owner, r, p);
    EntryOfTable(mem, owner, f, i);
    ClearLeaf(mem, owner, f, i);
    RoleOutside(cleared, owner[t := Free], t, Lost);
    assert owner[t := Free][t := Lost] == d;
    ZeroIsInvalid();
    WriteTwice(mem, f, i, 0, w);
    SetLeaf(cleared, d, f, i, w);
    BothWrites(mem, cleared, WriteEntry(mem, f, i, w), owner, d, r, p);
  }

  lemma WriteTwice(mem: Mem, f: nat, i: nat, v: Word, w: Word)
    requires f < |mem| && mem[f].Entries? && i < |mem[f].e|
    ensures WriteEntry(WriteEntry(mem, f, i, v), f, i, w) == WriteEntry(mem, f, i, w)
  {
    assert mem[f].e[i := v][i := w] == mem[f].e[i := w];
  }

  lemma BothWrites(mem: Mem, mem1: Mem, mem2: Mem, owner: Owners, owner1: Owners, r: nat, p: Path)
    requires SameLeavesBut(mem, mem1, owner, r, p) && SameLeavesBut(mem1, mem2, owner1, r, p)
    requires |owner1| == |owner| && forall h: nat {:trigger IsRoot(owner1, h)} :: IsRoot(owner, h) ==> IsRoot(owner1, h)
    ensures SameLeavesBut(mem, mem2, owner, r, p)
  {
    hide Entry;
    forall r', q' {:trigger Entry(mem2, r', q')} | IsRoot(owner, r') && PagePath(q') && !(r' == r && q' == p)
      ensures Entry(mem2, r', q') == Entry(mem, r', q')
    {
      assert IsRoot(owner1, r');
      assert Entry(mem1, r', q') == Entry(mem, r', q');
    }
  }

  /** The owner map once the frame a user entry names has become the page of `va`. */
  function Mapped(owner: Owners, root: nat, va: nat, w: Word): Owners
    requires |owner| == TOTAL_PAGES && (U(w) ==> InRam(Target(w)))
  {
    if U(w) then owner[Target(w) := Node(root, VpnPath(va))] else owner
  }

  lemma NothingDisplaced(mem: Mem, owner: Owners, root: nat, va: nat, w: Word)
    requires |owner| == TOTAL_PAGES && !UserLeaf(Entry(mem, root, VpnPath(va))) && !U(w)
    ensures Mapped(Displaced(mem, owner, root, VpnPath(va)), root, va, w) == owner
  {
  }

  lemma GrowthStep(mem: Mem, owner: Owners, mem1: Mem, owner1: Owners, mem2: Mem, owner2: Owners, r: nat)
    requires TreeGrowth(mem, owner, mem1, owner1, r) && TreeGrowth(mem1, owner1, mem2, owner2, r)
    requires Forest(mem, owner)
    ensures TreeGrowth(mem, owner, mem2, owner2, r)
    ensures SameLeaves(mem, mem1, owner) && SameLeaves(mem1, mem2, owner1) ==> SameLeaves(mem, mem2, owner)
  {
    forall r' | IsRoot(owner, r') ensures IsRoot(owner1, r') {}
  }

  lemma RoleStays(mem: Mem, owner: Owners, mem': Mem, owner': Owners, r: nat, f: nat)
    requires TreeGrowth(mem, owner, mem', owner', r) && f < TOTAL_PAGES && owner[f] != Free
    ensures owner'[f] == owner[f]
  {
  }

  /** Filling a frame that is no table changes no translation. */
  lemma SameTranslation(mem: Mem, owner: Owners, f: nat, content: Frame, r: nat, p: Path)
    requires Forest(mem, owner) && f < TOTAL_PAGES && !owner[f].Node? && IsRoot(owner, r) && PagePath(p)
    ensures Entry(mem[f := content], r, p) == Entry(mem, r, p)
  {
    hide Forest, Entry;
    NonTableWrite(mem, owner, f, content);
  }

  lemma RootStays(mem: Mem, owner: Owners, mem': Mem, owner': Owners, r: nat)
    requires TreeGrowth(mem, owner, mem', owner', r) && IsRoot(owner, r)
    ensures IsRoot(owner', r)
  {
  }

  /** Tables added first, then one leaf written: the effect on the whole of a map operation. */
  lemma MapEffects(mem: Mem, owner: Owners, mem1: Mem, owner1: Owners, mem2: Mem, owner2: Owners,
                   root: nat, va: nat, table: nat, w: Word)
    requires Forest(mem, owner) && IsRoot(owner, root) && TreeGrowth(mem, owner, mem1, owner1, root)
    requires NewLeafOk(mem, owner, VpnPath(va), w)
    requires SameLeaves(mem, mem1, owner) && SameLeavesBut(mem1, mem2, owner1, root, VpnPath(va))
    requires table < TOTAL_PAGES && owner1[table] == Node(root, VpnPath(va).up) && TableShape(mem1[table])
    requires mem2 == WriteEntry(mem1, table, Vpn(va, 0), w)
    requires var d := Displaced(mem1, owner1, root, VpnPath(va));
      d[table] == owner1[table] && owner2 == OwnersAfterLeaf(d, table, Vpn(va, 0), w)
    ensures SameLeavesBut(mem, mem2, owner, root, VpnPath(va))
    ensures TreeGrowth(mem, Mapped(Displaced(mem, owner, root, VpnPath(va)), root, va, w), mem2, owner2, root)
  {
    hide V, Leaf, R, W, X, U, Target, UserLeaf, EntriesOk, NodeOk, TreeGrowth;
    var e := Entry(mem, root, VpnPath(va));
    var d, d1 := Displaced(mem, owner, root, VpnPath(va)), Displaced(mem1, owner1, root, VpnPath(va));
    assert Entry(mem1, root, VpnPath(va)) == e;
    EntryRole(mem, owner, root, VpnPath(va));
    if UserLeaf(e) {
      assert UserPage(owner, Target(e), root, VpnPath(va)) by { UserLeafRole(owner, root, VpnPath(va), e); }
      StillGrowth(mem, owner, mem1, owner1, root, Target(e));
    }
    LeafGrowth(mem, d, mem1, d1, root, va, table, w);
    forall r', q' {:trigger Entry(mem2, r', q')} | IsRoot(owner, r') && PagePath(q')
      && !(r' == root && q' == VpnPath(va))
      ensures Entry(mem2, r', q') == Entry(mem, r', q')
    {
      RootOfOther(mem, owner, mem1, owner1, root, r');
      assert Entry(mem2, r', q') == Entry(mem1, r', q');
    }
  }

  predicate UserPage(owner: Owners, f: int, r: nat, p: Path) { 0 <= f < |owner| && owner[f] == Node(r, p) }

  lemma UserLeafRole(owner: Owners, r: nat, p: Path, w: Word)
    requires |owner| == TOTAL_PAGES && PagePath(p) && EntryOk(owner, r, p, w) && UserLeaf(w)
    ensures UserPage(owner, Target(w), r, p)
  {
  }

  lemma RootOfOther(mem: Mem, owner: Owners, mem1: Mem, owner1: Owners, r: nat, r': nat)
    requires TreeGrowth(mem, owner, mem1, owner1, r) && IsRoot(owner, r')
    ensures IsRoot(owner1, r')
  {
  }

  /** Dropping a user page before and after. */
  lemma StillGrowth(mem: Mem, owner: Owners, mem1: Mem, owner1: Owners, r: nat, t: nat)
    requires TreeGrowth(mem, owner, mem1, owner1, r) && t < |owner| && owner[t].Node? && owner[t].path.Depth() == 3
    ensures t < |owner1| && TreeGrowth(mem, owner[t := Lost], mem1, owner1[t := Lost], r)
  {
  }

  lemma LeafGrowth(mem: Mem, owner: Owners, mem1: Mem, owner1: Owners, root: nat, va: nat, table: nat, w: Word)
    requires TreeGrowth(mem, owner, mem1, owner1, root)
    requires U(w) ==> InRam(Target(w)) && owner[Target(w)] == InFlight
    requires table < TOTAL_PAGES && owner1[table] == Node(root, VpnPath(va).up) && TableShape(mem1[table])
    ensures TreeGrowth(mem, Mapped(owner, root, va, w), WriteEntry(mem1, table, Vpn(va, 0), w),
                       OwnersAfterLeaf(owner1, table, Vpn(va, 0), w), root)
  {
    hide U, Target;
  }

  /** Writing a last-level entry adds no table and takes no free frame. */
  lemma LeafIsFree(owner: Owners, mem1: Mem, owner1: Owners, owner2: Owners, f: nat, i: nat, w: Word, r: nat,
                   tables: set<Path>)
    requires Forest(mem1, owner1) && f < TOTAL_PAGES && i < ENTRIES && owner1[f].Node? && owner1[f].path.Depth() == 2
    requires owner1[f].root == r
    requires U(w) ==> InRam(Target(w)) && owner1[Target(w)] == InFlight
    requires var d := Displaced(mem1, owner1, r, Step(owner1[f].path, i));
      d[f] == owner1[f] && owner2 == OwnersAfterLeaf(d, f, i, w)
    requires Spent(owner, owner1, r, tables, 0)
    ensures Spent(owner, owner2, r, tables, 0)
  {
    hide Tables, FreeFrames, U, Target, Leaf, V, R, W, X;
    var p := Step(owner1[f].path, i);
    var d, e := Displaced(mem1, owner1, r, p), Entry(mem1, r, p);
    EntryOfTable(mem1, owner1, f, i);
    if UserLeaf(e) { OtherRole(owner1, Target(e), Lost, r); }
    if U(w) { OtherRole(d, Target(w), Node(owner1[f].root, p), r); }
  }

  datatype MapResult = Done | NoPage | NoTable

  /** Permissions a user page may have: some of R, W and X, not both W and X, and not the reserved W without R. */
  predicate UserFlags(flags: nat) {
    flags < 32 && U(flags) && (R(flags) || X(flags)) && !(W(flags) && X(flags)) && (W(flags) ==> R(flags))
  }

  /** The page at `path` is user memory with these permissions and these bytes. */
  predicate PageHolds(mem: Mem, r: nat, path: Path, content: Frame, flags: nat)
    requires path.Step? && flags < 1024
  {
    var w := Entry(mem, r, path);
    && UserLeaf(w) && w % 1024 == WithV(flags)
    && 0 <= Target(w) < |mem| && mem[Target(w)] == content
  }

  /** A frame for the page and then the tables on the way to it. */
  lemma PageAndTables(owner: Owners, owner1: Owners, owner2: Owners, r: nat, p: Path)
    requires PagePath(p) && Spent(owner, owner1, r, {}, 1)
    ensures Spent(owner1, owner2, r, Prefixes(p), 0) ==> Spent(owner, owner2, r, Prefixes(p), 1)
    ensures Short(owner1, r, Prefixes(p), 0) ==> Short(owner, r, Prefixes(p), 1)
  {
    hide Spent, Short, Prefixes;
    assert {} + Prefixes(p) == Prefixes(p);
    if Spent(owner1, owner2, r, Prefixes(p), 0) { SpentThen(owner, owner1, owner2, r, {}, 1, Prefixes(p), 0); }
    if Short(owner1, r, Prefixes(p), 0) { SpentThenShort(owner, owner1, r, {}, 1, Prefixes(p), 0); }
  }

  lemma UserNewLeaf(mem: Mem, owner: Owners, va: nat, f: nat, flags: nat)
    requires |mem| == |owner| == TOTAL_PAGES && f < TOTAL_PAGES && owner[f] == InFlight && PageShape(mem[f])
    requires UserFlags(flags)
    ensures var w := MakePte(FrameAddr(f), flags);
      NewLeafOk(mem, owner, VpnPath(va), w) && UserLeaf(w) && Target(w) == f && w % 1024 == WithV(flags)
  {
    hide MakePte, V, R, W, X, U;
    PteFields(FrameAddr(f), flags);
    PteRoundTrip(f, flags);
  }

  lemma NewPageMapped(mem: Mem, owner: Owners, f: nat, content: Frame, mem1: Mem, mem2: Mem, owner2: Owners,
                      root: nat, va: nat, flags: nat)
    requires |mem| == |owner| == TOTAL_PAGES && f < TOTAL_PAGES
    requires Forest(mem, owner) && IsRoot(owner, root) && owner[f] == Free && PageShape(content) && UserFlags(flags)
    requires mem1 == mem[f := content]
    requires var w := MakePte(FrameAddr(f), flags);
      && UserLeaf(w) && Target(w) == f && w % 1024 == WithV(flags)
      && Entry(mem2, root, VpnPath(va)) == w
      && SameLeavesBut(mem1, mem2, owner[f := InFlight], root, VpnPath(va))
      && TreeGrowth(mem1, Mapped(owner[f := InFlight], root, va, w), mem2, owner2, root)
    ensures SameLeavesBut(mem, mem2, owner, root, VpnPath(va))
    ensures TreeGrowth(mem, owner, mem2, owner2, root)
    ensures PageHolds(mem2, root, VpnPath(va), content, flags)
  {
    hide MakePte, V, R, W, X, U, Leaf, Target, Forest;
    NonTableWrite(mem, owner, f, content);
    forall r', q' {:trigger Entry(mem2, r', q')} | IsRoot(owner, r') && PagePath(q')
      && !(r' == root && q' == VpnPath(va))
      ensures Entry(mem2, r', q') == Entry(mem, r', q')
    {
      assert IsRoot(owner[f := InFlight], r');
      assert Entry(mem1, r', q') == Entry(mem, r', q');
    }
    var owner1 := Mapped(owner[f := InFlight], root, va, MakePte(FrameAddr(f), flags));
    assert owner1[f] == Node(root, VpnPath(va)) && mem2[f] == mem1[f] == content && owner2[f] == owner1[f];
    assert forall h | 0 <= h < TOTAL_PAGES && h != f :: owner1[h] == owner[h];
  }

  lemma NewPageFailed(mem: Mem, owner: Owners, f: nat, content: Frame, mem1: Mem, mem2: Mem, owner2: Owners, root: nat)
    requires |mem| == |owner| == TOTAL_PAGES && f < TOTAL_PAGES
    requires Forest(mem, owner) && IsRoot(owner, root) && owner[f] == Free
    requires mem1 == mem[f := content]
    requires SameLeaves(mem1, mem2, owner[f := InFlight])
    requires TreeGrowth(mem1, owner[f := InFlight], mem2, owner2, root)
    ensures SameLeaves(mem, mem2, owner)
    ensures TreeGrowth(mem, owner, mem2, owner2[f := Free], root)
  {
    hide V, Leaf, Target, Forest;
    NonTableWrite(mem, owner, f, content);
    forall r', q' {:trigger Entry(mem2, r', q')} | IsRoot(owner, r') && PagePath(q')
      ensures Entry(mem2, r', q') == Entry(mem, r', q')
    {
      assert IsRoot(owner[f := InFlight], r');
      assert Entry(mem1, r', q') == Entry(mem, r', q');
    }
  }

  predicate UserOrNothing(w: Word) { V(w) ==> UserLeaf(w) }

  predicate InPages(path: Path, lo: nat, hi: nat) { PagePath(path) && lo <= PageOf(path) < hi }

  /** The pages lo..hi of tree `r` are unmapped and their frames free; nothing else changed. */
  ghost predicate Unmapped(mem: Mem, owner: Owners, mem': Mem, owner': Owners, r: nat, lo: nat, hi: nat)
  {
    && |mem| == |mem'| == |owner| == |owner'| == TOTAL_PAGES
    && (forall r', q' {:trigger Entry(mem', r', q')} | IsRoot(owner, r') && PagePath(q') ::
          Entry(mem', r', q') == if r' == r && InPages(q', lo, hi) then 0 else Entry(mem, r', q'))
    && (forall f {:trigger owner'[f]} | 0 <= f < TOTAL_PAGES ::
          owner'[f] ==
            if owner[f].Node? && owner[f].root == r && InPages(owner[f].path, lo, hi) then Free else owner[f])
    && (forall f {:trigger mem'[f]} | 0 <= f < TOTAL_PAGES && !(IsTable(owner[f]) && owner[f].root == r) ::
      mem'[f] == mem[f])
  }

  lemma EntryIsZeroOrValid(mem: Mem, owner: Owners, r: nat, path: Path)
    requires Forest(mem, owner) && IsRoot(owner, r) && 0 < path.Depth() <= 3 && path.Valid()
    ensures V(Entry(mem, r, path)) || Entry(mem, r, path) == 0
  {
    EntryRole(mem, owner, r, path);
  }

  lemma OnePage(page: nat, hi: nat)
    requires page < PAGES && hi == page + 1
    ensures forall q {:trigger InPages(q, page, hi)} :: InPages(q, page, hi) <==> q == PathOf(page)
  {
    forall q | PagePath(q) ensures PageOf(q) == page ==> q == PathOf(page) { SplitIsInjective(q); }
  }

  /** The entry of a user page is not zero. */
  lemma PageIsMapped(mem: Mem, owner: Owners, f: nat)
    requires Forest(mem, owner) && f < TOTAL_PAGES && owner[f].Node? && PagePath(owner[f].path)
    ensures Entry(mem, owner[f].root, owner[f].path) != 0
  {
    hide V, Leaf, U, Target, EntriesOk;
    assert NodeOk(mem, owner, f);
    ZeroIsInvalid();
  }

  lemma UnmappedNone(mem: Mem, owner: Owners, r: nat, page: nat)
    requires Forest(mem, owner) && IsRoot(owner, r) && page < PAGES && Entry(mem, r, PathOf(page)) == 0
    ensures Unmapped(mem, owner, mem, owner, r, page, page + 1)
  {
    hide V, Leaf, U, Target, EntriesOk, NodeOk, PathOf, InPages, Entry;
    OnePage(page, page + 1);
    forall f: nat {:trigger owner[f]} | f < TOTAL_PAGES && owner[f].Node? ensures owner[f] != Node(r, PathOf(page)) {
      if owner[f] == Node(r, PathOf(page)) { PageIsMapped(mem, owner, f); }
    }
    hide Forest;
  }

  lemma UnmappedOne(mem: Mem, owner: Owners, f: nat, i: nat)
    requires CanUnmap(mem, owner, f, i)
    ensures var p := Step(owner[f].path, i);
      && PagePath(p) && InRam(Target(mem[f].e[i]))
      && Unmapped(mem, owner, WriteEntry(mem, f, i, 0), owner[Target(mem[f].e[i]) := Free], owner[f].root, PageOf(p),
                  PageOf(p) + 1)
  {
    hide V, Leaf, R, W, X, U, Target, EntriesOk, EntryOk, PageOf;
    EntryOfTable(mem, owner, f, i);
    ClearLeaf(mem, owner, f, i);
    var p, r, t := Step(owner[f].path, i), owner[f].root, Target(mem[f].e[i]);
    SplitIsInjective(p);
    OnePage(PageOf(p), PageOf(p) + 1);
    forall h: nat | h < TOTAL_PAGES && owner[h] == Node(r, p) ensures h == t { RoleIsUnique(mem, owner, h, t); }
  }

  lemma UnmappedRefl(mem: Mem, owner: Owners, r: nat, lo: nat)
    requires |mem| == |owner| == TOTAL_PAGES
    ensures Unmapped(mem, owner, mem, owner, r, lo, lo)
  {
    hide PageOf;
  }

  /** Between lo..page being unmapped and the next page's turn, that page is as it was. */
  lemma UnmappedSoFar(mem: Mem, owner: Owners, mem1: Mem, owner1: Owners, r: nat, lo: nat, page: nat)
    requires Unmapped(mem, owner, mem1, owner1, r, lo, page) && IsRoot(owner, r) && lo <= page < PAGES
    ensures IsRoot(owner1, r) && Entry(mem1, r, PathOf(page)) == Entry(mem, r, PathOf(page))
  {
    hide PathOf, PageOf;
  }

  lemma UnmappedCompose(mem: Mem, owner: Owners, mem1: Mem, owner1: Owners, mem2: Mem, owner2: Owners, r: nat, lo: nat,
                        page: nat)
    requires Forest(mem, owner) && lo <= page
    requires Unmapped(mem, owner, mem1, owner1, r, lo, page) && Unmapped(mem1, owner1, mem2, owner2, r, page, page + 1)
    ensures Unmapped(mem, owner, mem2, owner2, r, lo, page + 1)
  {
    hide PageOf;
    forall r', q' {:trigger Entry(mem2, r', q')} | IsRoot(owner, r') && PagePath(q')
      ensures Entry(mem2, r', q') == if r' == r && InPages(q', lo, page + 1) then 0 else Entry(mem, r', q')
    {
      assert IsRoot(owner1, r');
    }
  }

  /** The role is one strictly below `path` in tree `r`. */
  predicate Below(o: Owner, r: nat, path: Path) {
    o.Node? && o.root == r && o.path.Under(path) && o.path != path
  }

  /** The entry of the table at `path` through which the way to `q` goes. */
  function Branch(path: Path, q: Path): (i: nat)
    requires q.Under(path) && q != path
    ensures q.Under(Step(path, i))
  {
    if q.up == path then q.i else Branch(path, q.up)
  }

  lemma {:induction false} BranchIsUnique(path: Path, i: nat, q: Path)
    requires q.Under(Step(path, i))
    ensures q.Under(path) && q != path && Branch(path, q) == i
    decreases q
  {
    if q != Step(path, i) { BranchIsUnique(path, i, q.up); }
    if q == path { UnderIsProper(path, i); }
  }

  lemma {:induction false} BranchIsValid(path: Path, q: Path)
    requires q.Under(path) && q != path && q.Valid()
    ensures Branch(path, q) < ENTRIES
  {
    if q.up != path { BranchIsValid(path, q.up); }
  }

  /** Roles below the table at `path`, sorted by the entry they hang from. */
  lemma BranchFacts(all: Owners, r: nat, path: Path, i: nat)
    ensures forall f {:trigger all[f]} | 0 <= f < |all| ::
      (Below(all[f], r, path) && Branch(path, all[f].path) == i) <==>
        (all[f].Node? && all[f].root == r && all[f].path.Under(Step(path, i)))
  {
    forall f | 0 <= f < |all| && all[f].Node? && all[f].root == r && all[f].path.Under(Step(path, i))
      ensures Below(all[f], r, path) && Branch(path, all[f].path) == i
    {
      BranchIsUnique(path, i, all[f].path);
    }
  }

  /** The frames that hang from entry `i` of table `pt`: none, one page, or one table and what is below it. */
  lemma UnderEntry(mem: Mem, all: Owners, pt: nat, i: nat, f: nat)
    requires Forest(mem, all) && pt < TOTAL_PAGES && IsTable(all[pt]) && i < ENTRIES && TableShape(mem[pt])
    requires f < TOTAL_PAGES && all[f].Node? && all[f].root == all[pt].root && all[f].path.Under(Step(all[pt].path, i))
    ensures V(mem[pt].e[i]) && InRam(Target(mem[pt].e[i]))
    ensures all[pt].path.Depth() == 2 ==> UserLeaf(mem[pt].e[i]) && f == Target(mem[pt].e[i])
    ensures all[pt].path.Depth() < 2 ==>
      || f == Target(mem[pt].e[i])
      || (Below(all[f], all[pt].root, Step(all[pt].path, i)) && Branch(Step(all[pt].path, i), all[f].path) < ENTRIES)
  {
    hide V, Leaf, R, W, X, U, Target, EntriesOk;
    var p := Step(all[pt].path, i);
    EntryOfTable(mem, all, pt, i);
    ZeroIsInvalid();
    if !V(mem[pt].e[i]) || (all[pt].path.Depth() == 2 && !UserLeaf(mem[pt].e[i])) { NothingBelow(mem, all, pt, i, f); }
    assert NodeOk(mem, all, f);
    if all[f].path == p {
      RoleIsUnique(mem, all, f, Target(mem[pt].e[i]));
    } else {
      UnderDepth(p, all[f].path);
      BranchIsValid(p, all[f].path);
    }
  }

  /** The owner map after everything below the entries 0..n of the table at `path` was freed. */
  function FreedBelow(owner: Owners, all: Owners, r: nat, path: Path, n: nat): (owner': Owners)
    requires |all| == |owner|
    ensures |owner'| == |owner|
    ensures forall f {:trigger owner'[f]} | 0 <= f < |owner| ::
      owner'[f] == if Below(all[f], r, path) && Branch(path, all[f].path) < n then Free else owner[f]
  {
    seq(|owner|, f requires 0 <= f < |owner| =>
      if Below(all[f], r, path) && Branch(path, all[f].path) < n then Free else owner[f])
  }

  /** What one turn of the loop of free_page_table frees completes entry `i`. */
  lemma FreedOneMore(mem: Mem, owner: Owners, all: Owners, pt: nat, i: nat, was: Owners, now: Owners)
    requires Forest(mem, all) && pt < TOTAL_PAGES && IsTable(all[pt]) && i < ENTRIES && TableShape(mem[pt])
    requires |owner| == TOTAL_PAGES
    requires was == FreedBelow(owner, all, all[pt].root, all[pt].path, i)
    requires var (w, p) := (mem[pt].e[i], Step(all[pt].path, i));
      if V(w) && UserLeaf(w) then InRam(Target(w)) && now == was[Target(w) := Free]
      else
        if V(w) && !Leaf(w) then
          InRam(Target(w)) && now == FreedBelow(was, all, all[pt].root, p, ENTRIES)[Target(w) := Free]
      else now == was
    ensures now == FreedBelow(owner, all, all[pt].root, all[pt].path, i + 1)
  {
    hide V, R, W, X, U, Target, EntriesOk;
    var r, path, w := all[pt].root, all[pt].path, mem[pt].e[i];
    EntryOfTable(mem, all, pt, i);
    BranchFacts(all, r, path, i);
    forall f: nat | f < TOTAL_PAGES
      ensures now[f] == FreedBelow(owner, all, r, path, i + 1)[f]
    {
      if all[f].Node? && all[f].root == r && all[f].path.Under(Step(path, i)) {
        UnderEntry(mem, all, pt, i, f);
      } else if V(w) && InRam(Target(w)) && f == Target(w) && (UserLeaf(w) || !Leaf(w)) {
        assert all[f] == Node(r, Step(path, i));
      }
    }
  }

  lemma {:induction false} UnderTop(q: Path)
    ensures q.Under(Top)
  {
    if q.Step? { UnderTop(q.up); }
  }

  /** Freeing below the root and then the root leaves nothing of the tree. */
  lemma WholeTree(mem: Mem, all: Owners, r: nat)
    requires Forest(mem, all) && IsRoot(all, r)
    ensures FreedBelow(all, all, r, Top, ENTRIES)[r := Free] == WithoutTree(all, r)
  {
    hide V, Leaf, U, Target, EntriesOk;
    forall f: nat | f < TOTAL_PAGES && all[f].Node? && all[f].root == r && f != r
      ensures Below(all[f], r, Top) && Branch(Top, all[f].path) < ENTRIES
    {
      assert NodeOk(mem, all, f);
      UnderTop(all[f].path);
      if all[f].path == Top { RoleIsUnique(mem, all, f, r); }
      BranchIsValid(Top, all[f].path);
    }
  }

  function PageCeil(a: nat): nat { (a + PAGE_SIZE - 1) / PAGE_SIZE }

  /** The pages lo..hi of tree `r` map to themselves; its other pages are as before. */
  ghost predicate IdentityMapped(mem: Mem, mem': Mem, r: nat, lo: nat, hi: nat, flags: nat)
    requires flags < 1024 && hi <= PAGES
  {
    forall page {:trigger PathOf(page)} | 0 <= page < PAGES ::
      Entry(mem', r, PathOf(page)) ==
        if lo <= page < hi then MakePte(page * PAGE_SIZE, flags) else Entry(mem, r, PathOf(page))
  }

  lemma IdentityLeaf(mem: Mem, owner: Owners, addr: nat, flags: nat)
    requires |mem| == |owner| == TOTAL_PAGES && addr % PAGE_SIZE == 0 && addr < PAGES * PAGE_SIZE
    requires flags == PTE_R || flags == PTE_R + PTE_W || flags == PTE_R + PTE_X
    ensures NewLeafOk(mem, owner, VpnPath(addr), MakePte(addr, flags)) && !U(MakePte(addr, flags))
  {
    hide MakePte, PathOf, Vpn;
    assert !U(flags) && R(flags) && !(W(flags) && X(flags));
    hide V, R, W, X, U;
    PteFields(addr, flags);
    VpnIsPath(addr);
    assert PageOf(PathOf(addr / PAGE_SIZE)) == addr / PAGE_SIZE;
  }

  lemma IdentityOne(mem: Mem, mem': Mem, owner: Owners, r: nat, page: nat, flags: nat)
    requires flags < 1024 && page < PAGES && IsRoot(owner, r)
    requires SameLeavesBut(mem, mem', owner, r, PathOf(page))
    requires Entry(mem', r, PathOf(page)) == MakePte(page * PAGE_SIZE, flags)
    ensures IdentityMapped(mem, mem', r, page, page + 1, flags)
  {
    hide MakePte;
    forall p: nat | p < PAGES
      ensures Entry(mem', r, PathOf(p)) ==
        if page <= p < page + 1 then MakePte(p * PAGE_SIZE, flags) else Entry(mem, r, PathOf(p))
    {
      if p != page { assert PathOf(p) != PathOf(page); }
    }
  }

  lemma IdentityNone(mem: Mem, owner: Owners, r: nat, lo: nat, flags: nat)
    requires flags < 1024 && lo <= PAGES
    ensures IdentityMapped(mem, mem, r, lo, lo, flags) && Spent(owner, owner, r, RangeTables(lo, lo), 0)
  {
    hide Spent, Entry, MakePte, PathOf;
    SpentNothing(owner, r);
  }

  lemma BlankTree(mem: Mem, owner: Owners, lay: Layout, r: nat)
    requires forall page | 0 <= page < PAGES :: Entry(mem, r, PathOf(page)) == 0
    ensures NoUserPages(mem, r) && Spent(owner, owner, r, RangesTables(lay, 0), 0)
  {
    hide Spent, Entry, PathOf, V, U, Leaf;
    ZeroIsInvalid();
    SpentNothing(owner, r);
  }

  ghost predicate NoUserPages(mem: Mem, r: nat) {
    forall page {:trigger PathOf(page)} | 0 <= page < PAGES :: !UserLeaf(Entry(mem, r, PathOf(page)))
  }

  lemma IdentityKeepsNoUser(mem: Mem, mem': Mem, r: nat, page: nat, flags: nat)
    requires page < PAGES && (flags == PTE_R || flags == PTE_R + PTE_W || flags == PTE_R + PTE_X)
    requires NoUserPages(mem, r) && IdentityMapped(mem, mem', r, page, page + 1, flags)
    ensures NoUserPages(mem', r)
  {
    hide MakePte, PathOf;
    PteFields(page * PAGE_SIZE, flags);
  }

  lemma GrowthRefl(mem: Mem, owner: Owners, r: nat)
    requires |mem| == |owner| == TOTAL_PAGES
    ensures TreeGrowth(mem, owner, mem, owner, r) && SameLeaves(mem, mem, owner)
  {
    hide Entry;
  }

  /** The ranges vmm_map_kernel maps, as pages. */
  function KernelRange(lay: Layout, k: nat): (nat, nat) {
    match k
    case 0 => (lay.textStart / PAGE_SIZE, PageCeil(lay.textEnd))
    case 1 => (lay.rodataStart / PAGE_SIZE, PageCeil(lay.rodataEnd))
    case 2 => (lay.rodataEnd / PAGE_SIZE, PageCeil(lay.end))
    case 3 => (lay.end / PAGE_SIZE, PageCeil(RAM_END))
    case 4 => (UART0_BASE / PAGE_SIZE, PageCeil(UART0_BASE + UART0_SIZE))
    case _ => (PLIC_BASE / PAGE_SIZE, PageCeil(PLIC_BASE + PLIC_SIZE))
  }

  /** The tables the first `n` of them need. */
  function RangesTables(lay: Layout, n: nat): set<Path> {
    if n == 0 then {}
    else
      var (lo, hi) := KernelRange(lay, n - 1);
      RangesTables(lay, n - 1) + (if hi <= PAGES then RangeTables(lo, hi) else {})
  }

  /** The tables below the root that every address space has for the kernel: a matter of the layout alone. */
  function KernelTables(lay: Layout): set<Path> { RangesTables(lay, 6) }

  lemma {:induction false} RangesAreMonotone(lay: Layout, m: nat, n: nat)
    requires m <= n
    ensures RangesTables(lay, m) <= RangesTables(lay, n)
    decreases n
  {
    if m < n { RangesAreMonotone(lay, m, n - 1); }
  }

  lemma {:induction false} InRanges(lay: Layout, n: nat, p: Path)
    ensures p in RangesTables(lay, n) <==>
      exists k: nat {:trigger KernelRange(lay, k)} ::
        k < n && KernelRange(lay, k).1 <= PAGES && p in RangeTables(KernelRange(lay, k).0, KernelRange(lay, k).1)
  {
    hide RangeTables, KernelRange;
    if n > 0 { InRanges(lay, n - 1, p); }
  }

  lemma NextRange(lay: Layout, k: nat, owner: Owners, owner1: Owners, owner2: Owners, r: nat)
    requires k < 6 && lay.Valid() && Spent(owner, owner1, r, RangesTables(lay, k), 0)
    ensures KernelRange(lay, k).1 <= PAGES
    ensures var (lo, hi) := KernelRange(lay, k);
      && (Spent(owner1, owner2, r, RangeTables(lo, hi), 0) ==> Spent(owner, owner2, r, RangesTables(lay, k + 1), 0))
      && (Short(owner1, r, RangeTables(lo, hi), 0) ==> Short(owner, r, KernelTables(lay), 0))
  {
    hide Spent, Short, RangeTables;
    var (lo, hi) := KernelRange(lay, k);
    RangesAreMonotone(lay, k + 1, 6);
    NextPart(owner, owner1, owner2, r, RangesTables(lay, k), 0, RangeTables(lo, hi), 0, KernelTables(lay), 0);
  }

  /** The six ranges together are the kernel map. */
  lemma KernelMapIs(lay: Layout, m0: Mem, m1: Mem, m2: Mem, m3: Mem, m4: Mem, m5: Mem, m6: Mem, r: nat)
    requires lay.Valid() && forall page {:trigger PathOf(page)} | 0 <= page < PAGES :: Entry(m0, r, PathOf(page)) == 0
    requires IdentityMapped(m0, m1, r, lay.textStart / PAGE_SIZE, PageCeil(lay.textEnd), PTE_R + PTE_X)
    requires IdentityMapped(m1, m2, r, lay.rodataStart / PAGE_SIZE, PageCeil(lay.rodataEnd), PTE_R)
    requires IdentityMapped(m2, m3, r, lay.rodataEnd / PAGE_SIZE, PageCeil(lay.end), PTE_R + PTE_W)
    requires IdentityMapped(m3, m4, r, lay.end / PAGE_SIZE, PageCeil(RAM_END), PTE_R + PTE_W)
    requires IdentityMapped(m4, m5, r, UART0_BASE / PAGE_SIZE, PageCeil(UART0_BASE + UART0_SIZE), PTE_R + PTE_W)
    requires IdentityMapped(m5, m6, r, PLIC_BASE / PAGE_SIZE, PageCeil(PLIC_BASE + PLIC_SIZE), PTE_R + PTE_W)
    ensures forall page {:trigger PathOf(page)} | 0 <= page < PAGES ::
      Entry(m6, r, PathOf(page)) == KernelPte(lay, page)
  {
    hide MakePte, PathOf, Entry;
  }

  /** Walking a range page by page. */
  lemma PageSteps(start: nat, addr: nat, end: nat)
    requires start % PAGE_SIZE == 0 && addr % PAGE_SIZE == 0 && start <= addr && start <= end
    ensures start / PAGE_SIZE <= addr / PAGE_SIZE && (addr + PAGE_SIZE) / PAGE_SIZE == addr / PAGE_SIZE + 1
    ensures (addr + PAGE_SIZE) % PAGE_SIZE == 0
    ensures addr < end <==> addr / PAGE_SIZE < PageCeil(end)
    ensures start / PAGE_SIZE <= PageCeil(end) && (end <= PAGES * PAGE_SIZE ==> PageCeil(end) <= PAGES)
  {
  }

  lemma IdentityCompose(mem: Mem, mem1: Mem, mem2: Mem, r: nat, lo: nat, page: nat, flags: nat)
    requires flags < 1024 && page < PAGES && lo <= page
    requires IdentityMapped(mem, mem1, r, lo, page, flags) && IdentityMapped(mem1, mem2, r, page, page + 1, flags)
    ensures IdentityMapped(mem, mem2, r, lo, page + 1, flags)
  {
    hide MakePte, PathOf;
  }

  class AddressSpaces {
    const pmm: FrameAllocator
    var mem: Mem
    ghost var owner: Owners
    var satp: nat          // frame of the active root table

    /** The bitmap marks exactly the frames that have a role. */
    ghost predicate Tied()
      reads this, pmm.bitmap
    {
      && pmm.Valid() && |mem| == |owner| == TOTAL_PAGES
      && forall f: nat {:trigger owner[f]} {:trigger f in pmm.Used()} | f < TOTAL_PAGES ::
           f in pmm.Used() <==> owner[f] != Free
    }

    ghost predicate Valid()
      reads this, pmm.bitmap
    {
      Tied() && Forest(mem, owner)
    }

    /** RAM as it is at boot, with everything up to the end of the bitmap protected. */
    constructor (ram: Mem, end: nat)
      requires |ram| == TOTAL_PAGES
      requires PHYSICAL_RAM_START <= end && end % PAGE_SIZE == 0
      requires end + PAGE_SIZE <= PHYSICAL_RAM_START + TOTAL_PAGES * PAGE_SIZE
      ensures Valid() && fresh(pmm) && fresh(pmm.bitmap) && mem == ram
      ensures forall f | 0 <= f < TOTAL_PAGES ::
        owner[f] == if f < (end - PHYSICAL_RAM_START) / PAGE_SIZE + 1 then Reserved else Free
    {
      pmm := new FrameAllocator(end);
      mem := ram;
      owner := seq(TOTAL_PAGES, f => if f < (end - PHYSICAL_RAM_START) / PAGE_SIZE + 1 then Reserved else Free);
      satp := 0;
    }

    /** pmm_alloc_page for a caller that will put the frame to use: lowest free frame first. */
    method AllocPage() returns (pa: nat)
      requires Tied()
      modifies `owner, pmm.bitmap
      ensures Tied()
      ensures pa == 0 ==> owner == old(owner) && NoFree(owner)
      ensures pa != 0 ==> IsFrameAddr(pa) && old(owner[FrameIndex(pa)]) == Free
      ensures pa != 0 ==> owner == old(owner)[FrameIndex(pa) := InFlight]
      ensures pa != 0 ==> forall f | 0 <= f < FrameIndex(pa) :: old(owner[f]) != Free
      ensures old(Forest(mem, owner)) ==> Valid()
    {
      pa := pmm.AllocPage();
      if pa != 0 {
        if Forest(mem, owner) { RoleOutside(mem, owner, FrameIndex(pa), InFlight); }
        owner := owner[FrameIndex(pa) := InFlight];
      }
    }

    /** pmm_free_page of a frame. */
    method FreeFrame(f: nat)
      requires Tied() && f < TOTAL_PAGES
      modifies `owner, pmm.bitmap
      ensures Tied() && owner == old(owner)[f := Free]
    {
      AddrIndex(f);
      hide FrameAddr, IsFrameAddr;
      pmm.FreePage(FrameAddr(f));
      owner := owner[f := Free];
    }

    /** vmm_lookup: where the last-level entry for `va` is, or nothing when a table is missing. */
    method Lookup(root: nat, va: nat) returns (found: bool, table: nat)
      requires Valid() && IsRoot(owner, root)
      ensures found <==> TableAt(mem, root, PathAbove(va, 1)) != -1
      ensures found ==> table < TOTAL_PAGES && owner[table] == Node(root, PathAbove(va, 1)) && TableShape(mem[table])
      ensures Entry(mem, root, VpnPath(va)) == if found then mem[table].e[Vpn(va, 0)] else 0
    {
      table := root;
      var level := 2;
      while level > 0
        invariant 0 <= level <= 2
        invariant table < TOTAL_PAGES && owner[table] == Node(root, PathAbove(va, level + 1))
        invariant TableAt(mem, root, PathAbove(va, level + 1)) == table
      {
        EntryOfTable(mem, owner, table, Vpn(va, level));
        var pte := mem[table].e[Vpn(va, level)];
        if !V(pte) {
          Blocked(root, va, level);
          return false, table;
        }
        table := FrameOf(pte);
        level := level - 1;
      }
      EntryOfTable(mem, owner, table, Vpn(va, 0));
      found := true;
    }

    lemma Blocked(root: nat, va: nat, level: nat)
      requires 0 < level < 3 && !Points(Entry(mem, root, PathAbove(va, level)))
      ensures TableAt(mem, root, PathAbove(va, 1)) == -1 && Entry(mem, root, VpnPath(va)) == 0
    {
      ZeroIsInvalid();
      assert VpnPath(va) == Step(PathAbove(va, 1), Vpn(va, 0));
      assert PathAbove(va, 1) == Step(PathAbove(va, 2), Vpn(va, 1));
    }

    /** Allocate a zeroed table and link it under the invalid entry `i` of `table`. */
    method AddTable(table: nat, i: nat) returns (ok: bool, newTable: nat)
      requires Valid() && table < TOTAL_PAGES && i < ENTRIES
      requires owner[table].Node? && owner[table].path.Depth() < 2 && TableShape(mem[table]) && !V(mem[table].e[i])
      modifies `mem, `owner, pmm.bitmap
      ensures Valid() && SameLeaves(old(mem), mem, old(owner))
      ensures TreeGrowth(old(mem), old(owner), mem, owner, old(owner)[table].root)
      ensures ok ==>
        newTable < TOTAL_PAGES && owner[newTable] == Node(old(owner)[table].root, Step(old(owner)[table].path, i))
      ensures ok ==>
        TableShape(mem[table]) && Points(mem[table].e[i]) && Target(mem[table].e[i]) == newTable && newTable != table
      ensures ok ==> old(owner[newTable]) == Free && mem[newTable] == ZeroTable()
      ensures ok ==> mem[table].e == old(mem[table].e)[i := mem[table].e[i]]
      ensures ok ==> Spent(old(owner), owner, old(owner)[table].root, {Step(old(owner)[table].path, i)}, 0)
      ensures !ok ==> mem == old(mem) && owner == old(owner) && NoFree(owner)
    {
      hide V, Leaf, U, Target, Forest, Spent, Tables, NoFree, SameLeaves, IsFrameAddr;
      EntryIsTable(mem, owner, table, i);
      GrowthRefl(mem, owner, owner[table].root);
      var page := AllocPage();
      if page == 0 { return false, 0; }
      newTable := FrameIndex(page);
      TablePtePoints(newTable);
      LinkTable(mem, old(owner), table, i, newTable);
      mem := mem[newTable := ZeroTable()];
      mem := WriteEntry(mem, table, i, PaToPte(page) + PTE_V);
      owner := owner[newTable := Node(owner[table].root, Step(owner[table].path, i))];
      assert owner == old(owner)[newTable := Node(old(owner)[table].root, Step(old(owner)[table].path, i))];
      Budget.NewTable(old(owner), newTable, old(owner)[table].root, Step(old(owner)[table].path, i));
      ok := true;
    }

    /** Write the last-level entry `i` of `table`, whatever it maps. */
    method PutLeaf(table: nat, i: nat, w: Word)
      requires Valid() && table < TOTAL_PAGES && i < ENTRIES && owner[table].Node? && owner[table].path.Depth() == 2
      requires TableShape(mem[table]) && NewLeafOk(mem, owner, Step(owner[table].path, i), w)
      modifies `mem, `owner
      ensures Valid() && mem == WriteEntry(old(mem), table, i, w)
      ensures var d := Displaced(old(mem), old(owner), old(owner)[table].root, Step(old(owner)[table].path, i));
        d[table] == old(owner)[table] && owner == OwnersAfterLeaf(d, table, i, w)
      ensures SameLeavesBut(old(mem), mem, old(owner), old(owner)[table].root, Step(old(owner)[table].path, i))
      ensures Entry(mem, old(owner)[table].root, Step(old(owner)[table].path, i)) == w
    {
      hide V, Leaf, R, W, X, U, Target, EntriesOk, EntryOk, NodeOk, SameLeavesBut, UserLeaf;
      ghost var d := Displaced(mem, owner, owner[table].root, Step(owner[table].path, i));
      EntryOfTable(mem, owner, table, i);
      if UserLeaf(mem[table].e[i]) {
        OverLeaf(mem, owner, table, i, w);
        WriteTwice(mem, table, i, 0, w);
        SetLeaf(WriteEntry(mem, table, i, 0), d, table, i, w);
      } else {
        SetLeaf(mem, owner, table, i, w);
      }
      mem := WriteEntry(mem, table, i, w);
      owner := OwnersAfterLeaf(d, table, i, w);
    }

    /** Write the last-level entry `i` of `table`, which maps no user page yet. */
    method WriteLeaf(table: nat, i: nat, w: Word)
      requires Valid() && CanMap(mem, owner, table, i, w)
      modifies `mem, `owner
      ensures Valid() && owner == OwnersAfterLeaf(old(owner), table, i, w) && mem == WriteEntry(old(mem), table, i, w)
      ensures SameLeavesBut(old(mem), mem, old(owner), old(owner)[table].root, Step(old(owner)[table].path, i))
      ensures Entry(mem, old(owner)[table].root, Step(old(owner)[table].path, i)) == w
    {
      hide V, Leaf, R, W, X, U, Target, EntriesOk, EntryOk, NodeOk, SameLeavesBut, UserLeaf;
      EntryOfTable(mem, owner, table, i);
      PutLeaf(table, i, w);
    }

    /** The walk of map_page down to the last-level table of `va`, adding the tables it misses. */
    method WalkAlloc(root: nat, va: nat) returns (ok: bool, table: nat)
      requires Valid() && IsRoot(owner, root)
      modifies `mem, `owner, pmm.bitmap
      ensures Valid() && SameLeaves(old(mem), mem, old(owner)) && TreeGrowth(old(mem), old(owner), mem, owner, root)
      ensures ok ==> table < TOTAL_PAGES && owner[table] == Node(root, VpnPath(va).up)
      ensures if ok then Spent(old(owner), owner, root, Prefixes(VpnPath(va)), 0)
              else Short(old(owner), root, Prefixes(VpnPath(va)), 0)
      ensures !ok ==> NoFree(owner)
    {
      hide V, Leaf, R, W, X, U, Target, EntriesOk, Spent, Short, NoFree, Tables, SameLeaves, TreeGrowth, Vpn, Passed,
           PathAbove, Prefixes, Entry, NodeOk;
      PassedAll(va);
      AtTheTop(va);
      SpentNothing(owner, root);
      GrowthRefl(mem, owner, root);
      table := root;
      var level := 2;
      while level > 0
        invariant 0 <= level <= 2 && Valid()
        invariant table < TOTAL_PAGES && owner[table] == Node(root, PathAbove(va, level + 1))
        invariant SameLeaves(old(mem), mem, old(owner)) && TreeGrowth(old(mem), old(owner), mem, owner, root)
        invariant Spent(old(owner), owner, root, Passed(va, level), 0)
      {
        ghost var mem0, owner0 := mem, owner;
        OneLevelDown(va, level);
        ok, table := NextTable(table, root, va, level);
        GrowthStep(old(mem), old(owner), mem0, owner0, mem, owner, root);
        if !ok {
          OutOfTables(old(owner), owner, root, va, level);
          return;
        }
        SpentThen(old(owner), owner0, owner, root, Passed(va, level), 0, {PathAbove(va, level)}, 0);
        level := level - 1;
      }
      ok := true;
    }

    /** One turn of the walk: the table that the entry names, or a new one. */
    method NextTable(table: nat, ghost root: nat, va: nat, level: nat) returns (ok: bool, next: nat)
      requires Valid() && 0 < level <= 2 && table < TOTAL_PAGES && owner[table] == Node(root, PathAbove(va, level + 1))
      modifies `mem, `owner, pmm.bitmap
      ensures Valid() && SameLeaves(old(mem), mem, old(owner)) && TreeGrowth(old(mem), old(owner), mem, owner, root)
      ensures ok ==> next < TOTAL_PAGES && owner[next] == Node(root, PathAbove(va, level))
      ensures if ok then Spent(old(owner), owner, root, {PathAbove(va, level)}, 0)
              else NoFree(owner) && PathAbove(va, level) !in Tables(owner, root) && owner == old(owner)
    {
      hide V, Leaf, R, W, X, U, Target, EntriesOk, Spent, Short, NoFree, Tables, SameLeaves, TreeGrowth, Vpn, Passed,
           Prefixes, Entry, NodeOk;
      var vpn := Vpn(va, level);
      OneLevelDown(va, level);
      EntryOfTable(mem, owner, table, vpn);
      EntryIsTable(mem, owner, table, vpn);
      var pte := mem[table].e[vpn];
      if V(pte) {
        OldTable(owner, root, PathAbove(va, level));
        GrowthRefl(mem, owner, root);
        return true, FrameOf(pte);
      }
      ok, next := AddTable(table, vpn);
    }

    /**
      map_page. On success exactly the translation of va's page changes, to the entry asked for; a
      user page that was mapped there is dropped without being freed. It succeeds exactly when as
      many frames are free as tables are missing on the way. Out of memory no translation changes;
      the tables it did add are in the tree of `root`, where FreePt finds them.
     */
    method MapPage(root: nat, va: nat, pa: Word, flags: nat) returns (rc: int)
      requires Valid() && IsRoot(owner, root) && flags < 1024
      requires NewLeafOk(mem, owner, VpnPath(va), MakePte(pa, flags))
      modifies `mem, `owner, pmm.bitmap
      ensures Valid() && (rc == 0 || rc == -1)
      ensures rc == 0 ==>
        && Entry(mem, root, VpnPath(va)) == MakePte(pa, flags)
        && SameLeavesBut(old(mem), mem, old(owner), root, VpnPath(va))
        && TreeGrowth(old(mem),
                      Mapped(Displaced(old(mem), old(owner), root, VpnPath(va)), root, va, MakePte(pa, flags)), mem,
                      owner, root)
      ensures rc == -1 ==>
        && SameLeaves(old(mem), mem, old(owner))
        && TreeGrowth(old(mem), old(owner), mem, owner, root)
        && NoFree(owner)
      ensures if rc == 0 then Spent(old(owner), owner, root, Prefixes(VpnPath(va)), 0)
              else Short(old(owner), root, Prefixes(VpnPath(va)), 0)
    {
      hide V, Leaf, R, W, X, U, Target, EntriesOk, MakePte, Spent, Short, NoFree;
      var ok, table := WalkAlloc(root, va);
      if !ok { return -1; }
      var vpn0 := Vpn(va, 0);
      EntryOfTable(mem, owner, table, vpn0);
      ghost var mem0, owner0 := mem, owner;
      PutLeaf(table, vpn0, MakePte(pa, flags));
      LeafIsFree(old(owner), mem0, owner0, owner, table, vpn0, MakePte(pa, flags), root, Prefixes(VpnPath(va)));
      MapEffects(old(mem), old(owner), mem0, owner0, mem, owner, root, va, table, MakePte(pa, flags));
      return 0;
    }

    /** One turn of the loop of vmm_unmap_range. */
    method UnmapPage(root: nat, a: nat)
      requires Valid() && IsRoot(owner, root) && a % PAGE_SIZE == 0 && a < PAGES * PAGE_SIZE
      requires UserOrNothing(Entry(mem, root, PathOf(a / PAGE_SIZE)))
      modifies `mem, `owner, pmm.bitmap
      ensures Valid() && Unmapped(old(mem), old(owner), mem, owner, root, a / PAGE_SIZE, a / PAGE_SIZE + 1)
    {
      hide V, Leaf, R, W, X, U, Target, EntriesOk, EntryOk;
      VpnIsPath(a);
      var found, table := Lookup(root, a);
      EntryIsZeroOrValid(mem, owner, root, PathOf(a / PAGE_SIZE));
      if found && V(mem[table].e[Vpn(a, 0)]) {
        ClearLeaf(mem, owner, table, Vpn(a, 0));
        UnmappedOne(mem, owner, table, Vpn(a, 0));
        FreeFrame(FrameOf(mem[table].e[Vpn(a, 0)]));
        mem := WriteEntry(mem, table, Vpn(a, 0), 0);
      } else {
        UnmappedNone(mem, owner, root, a / PAGE_SIZE);
      }
    }

    /**
      vmm_unmap_range over user pages: exactly the mapped pages of the range are unmapped and
      their frames, and only theirs, are free afterwards.
     */
    method UnmapRange(root: nat, start: nat, end: nat)
      requires Valid() && IsRoot(owner, root)
      requires start % PAGE_SIZE == 0 && end % PAGE_SIZE == 0 && start <= end <= PAGES * PAGE_SIZE
      requires forall page | start / PAGE_SIZE <= page < end / PAGE_SIZE ::
        UserOrNothing(Entry(mem, root, PathOf(page)))
      modifies `mem, `owner, pmm.bitmap
      ensures Valid() && Unmapped(old(mem), old(owner), mem, owner, root, start / PAGE_SIZE, end / PAGE_SIZE)
    {
      hide V, Leaf, U, Target, Forest, UserOrNothing, Unmapped, PathOf, Entry;
      UnmappedRefl(mem, owner, root, start / PAGE_SIZE);
      var a := start;
      while a < end
        invariant start <= a <= end && a % PAGE_SIZE == 0
        invariant Valid()
        invariant Unmapped(old(mem), old(owner), mem, owner, root, start / PAGE_SIZE, a / PAGE_SIZE)
      {
        ghost var mem0, owner0, page := mem, owner, a / PAGE_SIZE;
        UnmappedSoFar(old(mem), old(owner), mem, owner, root, start / PAGE_SIZE, page);
        UnmapPage(root, a);
        UnmappedCompose(old(mem), old(owner), mem0, owner0, mem, owner, root, start / PAGE_SIZE, page);
        assert (a + PAGE_SIZE) / PAGE_SIZE == page + 1;
        a := a + PAGE_SIZE;
      }
    }

    /**
      A fresh frame filled with `content` and mapped at `va`. When the frame or a table on the way
      to it cannot be had, no translation and no frame in use changes, except for tables added. It
      succeeds exactly when there are free frames for the page and the tables missing on the way.
     */
    method MapNewPage(root: nat, va: nat, content: Frame, flags: nat) returns (rc: MapResult)
      requires Valid() && IsRoot(owner, root) && PageShape(content)
      requires UserFlags(flags) && !UserLeaf(Entry(mem, root, VpnPath(va)))
      modifies `mem, `owner, pmm.bitmap
      ensures Valid() && IsRoot(owner, root) && TreeGrowth(old(mem), old(owner), mem, owner, root)
      ensures rc == Done ==> SameLeavesBut(old(mem), mem, old(owner), root, VpnPath(va))
      ensures rc == Done ==> PageHolds(mem, root, VpnPath(va), content, flags)
      ensures rc != Done ==> SameLeaves(old(mem), mem, old(owner))
      ensures rc == NoPage <==> NoFree(old(owner))
      ensures if rc == Done then Spent(old(owner), owner, root, Prefixes(VpnPath(va)), 1)
              else Short(old(owner), root, Prefixes(VpnPath(va)), 1)
    {
      hide V, Leaf, R, W, X, U, Target, EntriesOk, EntryOk, NodeOk, MakePte, Forest, UserLeaf, Spent, Short,
           SameLeavesBut;
      GrowthRefl(mem, owner, root);
      var pa := AllocPage();
      if pa == 0 {
        ShortWhenFull(owner, root, Prefixes(VpnPath(va)), 1);
        return NoPage;
      }
      var f := FrameIndex(pa);
      NewOther(old(owner), f, InFlight, root);
      NonTableWrite(mem, owner, f, content);
      mem := mem[f := content];
      SameTranslation(old(mem), old(owner), f, content, root, VpnPath(va));
      ghost var mem1, owner1 := mem, owner;
      UserNewLeaf(mem, owner, va, f, flags);
      var mapped := MapPage(root, va, pa, flags);
      PageAndTables(old(owner), owner1, owner, root, VpnPath(va));
      if mapped != 0 {
        RoleOutside(mem, owner, f, Free);
        NewPageFailed(old(mem), old(owner), f, content, mem1, mem, owner, root);
        FreeFrame(f);
        return NoTable;
      }
      NewPageMapped(old(mem), old(owner), f, content, mem1, mem, owner, root, va, flags);
      rc := Done;
    }

    // ---- free_page_table and vmm_free_pt ----

    /**
      free_page_table on the table at `path` of tree `r`: every frame strictly below it is freed,
      user pages and tables alike, and no other. Entries are left as they are, so it is the
      forest as it was before anything was freed, `all`, that says what they mean.
     */
    method FreePageTable(pt: nat, level: nat, ghost all: Owners, ghost path: Path)
      requires level < 3 && path.Depth() == 2 - level
      requires Tied() && Forest(mem, all) && pt < TOTAL_PAGES && all[pt].Node? && all[pt].path == path
      requires forall f {:trigger owner[f]} | 0 <= f < TOTAL_PAGES && Below(all[f], all[pt].root, path) ::
        owner[f] == all[f]
      modifies `owner, pmm.bitmap
      ensures Tied()
      ensures owner == FreedBelow(old(owner), all, all[pt].root, path, ENTRIES)
      decreases level
    {
      hide V, R, W, X, U, Target, EntriesOk, Branch;
      assert NodeOk(mem, all, pt);
      ghost var r := all[pt].root;
      assert owner == FreedBelow(old(owner), all, r, path, 0);
      var i := 0;
      while i < ENTRIES
        invariant 0 <= i <= ENTRIES
        invariant Tied()
        invariant owner == FreedBelow(old(owner), all, r, path, i)
      {
        EntryOfTable(mem, all, pt, i);
        BranchFacts(all, r, path, i);
        ghost var was := owner;
        var pte := mem[pt].e[i];
        if V(pte) {
          if R(pte) || W(pte) || X(pte) {
            if U(pte) { FreeFrame(FrameOf(pte)); }
          } else if level > 0 {
            var next := FrameOf(pte);
            FreePageTable(next, level - 1, all, Step(path, i));
            FreeFrame(next);
          }
        }
        FreedOneMore(mem, old(owner), all, pt, i, was, owner);
        i := i + 1;
      }
    }

    /** vmm_free_pt: exactly the frames of the tree are free afterwards. */
    method FreePt(root: nat)
      requires Valid() && IsRoot(owner, root) && root != satp
      modifies `owner, pmm.bitmap
      ensures Valid() && owner == WithoutTree(old(owner), root)
    {
      hide V, Leaf, R, W, X, U, Target, EntriesOk, NodeOk;
      ghost var all := owner;
      assert NodeOk(mem, all, root);
      FreePageTable(root, 2, all, Top);
      FreeFrame(root);
      WholeTree(mem, all, root);
      DropTree(mem, all, root);
      assert owner == WithoutTree(all, root);
    }

    // ---- vmm_map_kernel ----

    /** A zeroed root table: the pmm_alloc_page and memset that every new address space starts with. */
    method NewSpace() returns (ok: bool, root: nat)
      requires Valid()
      modifies `mem, `owner, pmm.bitmap
      ensures Valid()
      ensures ok ==> root < TOTAL_PAGES && old(owner[root]) == Free && owner == old(owner)[root := Node(root, Top)]
      ensures ok ==> mem == old(mem)[root := ZeroTable()]
      ensures ok ==> forall q | PagePath(q) :: Entry(mem, root, q) == 0
      ensures ok ==> Tables(owner, root) == {} && |FreeFrames(old(owner))| == |FreeFrames(owner)| + 1
      ensures !ok ==> mem == old(mem) && owner == old(owner) && NoFree(owner)
    {
      hide Tables, FreeFrames, V, Leaf, Target;
      var page := AllocPage();
      if page == 0 { return false, 0; }
      root := FrameIndex(page);
      FreshTree(mem, old(owner), root);
      PageTrees.NewRoot(mem, old(owner), root);
      mem := mem[root := ZeroTable()];
      owner := owner[root := Node(root, Top)];
      assert owner == old(owner)[root := Node(root, Top)];
      ok := true;
    }

    /** One turn of the loop of map_identity_range. */
    method MapIdentityPage(root: nat, addr: nat, flags: nat) returns (ok: bool)
      requires Valid() && IsRoot(owner, root) && addr % PAGE_SIZE == 0 && addr < PAGES * PAGE_SIZE
      requires flags == PTE_R || flags == PTE_R + PTE_W || flags == PTE_R + PTE_X
      requires NoUserPages(mem, root)
      modifies `mem, `owner, pmm.bitmap
      ensures Valid() && IsRoot(owner, root) && TreeGrowth(old(mem), old(owner), mem, owner, root)
      ensures ok ==> IdentityMapped(old(mem), mem, root, addr / PAGE_SIZE, addr / PAGE_SIZE + 1, flags)
      ensures if ok then Spent(old(owner), owner, root, Prefixes(PathOf(addr / PAGE_SIZE)), 0)
              else Short(old(owner), root, Prefixes(PathOf(addr / PAGE_SIZE)), 0)
    {
      hide Spent, Short, Prefixes, V, Leaf, R, W, X, U, Target, Forest, MakePte, NewLeafOk, TreeGrowth, SameLeaves,
           SameLeavesBut, VpnPath, PathOf, IdentityMapped, NoFree, UserLeaf;
      VpnIsPath(addr);
      IdentityLeaf(mem, owner, addr, flags);
      NothingDisplaced(mem, owner, root, addr, MakePte(addr, flags));
      hide Displaced, Mapped, Entry;
      var rc := MapPage(root, addr, addr, flags);
      ok := rc == 0;
      RootStays(old(mem), old(owner), mem, owner, root);
      if ok { IdentityOne(old(mem), mem, old(owner), root, addr / PAGE_SIZE, flags); }
    }

    /** map_identity_range: map [start, end) to itself, page by page; `ok` is false where it panics. */
    method MapIdentityRange(root: nat, start: nat, end: nat, flags: nat, ghost mem0: Mem,
                            ghost owner0: Owners) returns (ok: bool)
      requires Valid() && IsRoot(owner, root) && start % PAGE_SIZE == 0 && start <= end <= PAGES * PAGE_SIZE
      requires flags == PTE_R || flags == PTE_R + PTE_W || flags == PTE_R + PTE_X
      requires NoUserPages(mem, root) && Forest(mem0, owner0) && TreeGrowth(mem0, owner0, mem, owner, root)
      modifies `mem, `owner, pmm.bitmap
      ensures Valid() && IsRoot(owner, root) && TreeGrowth(mem0, owner0, mem, owner, root)
      ensures ok ==>
        NoUserPages(mem, root) && IdentityMapped(old(mem), mem, root, start / PAGE_SIZE, PageCeil(end), flags)
      ensures if ok then Spent(old(owner), owner, root, RangeTables(start / PAGE_SIZE, PageCeil(end)), 0)
              else Short(old(owner), root, RangeTables(start / PAGE_SIZE, PageCeil(end)), 0)
    {
      hide Spent, Short, RangeTables, IdentityMapped, NoUserPages, TreeGrowth, Forest, V, Leaf, R, W, X, U, Target,
           EntriesOk, EntryOk, MakePte, NodeOk, LeafOk, PathOf, PageCeil;
      IdentityNone(mem, owner, root, start / PAGE_SIZE, flags);
      PageSteps(start, start, end);
      var addr := start;
      while addr < end
        invariant start <= addr && addr % PAGE_SIZE == 0 && start / PAGE_SIZE <= addr / PAGE_SIZE <= PageCeil(end)
        invariant Valid() && IsRoot(owner, root) && NoUserPages(mem, root)
        invariant TreeGrowth(mem0, owner0, mem, owner, root)
        invariant Spent(old(owner), owner, root, RangeTables(start / PAGE_SIZE, addr / PAGE_SIZE), 0)
        invariant IdentityMapped(old(mem), mem, root, start / PAGE_SIZE, addr / PAGE_SIZE, flags)
      {
        ghost var mem1, owner1, page := mem, owner, addr / PAGE_SIZE;
        PageSteps(start, addr, end);
        ok := MapIdentityPage(root, addr, flags);
        GrowthStep(mem0, owner0, mem1, owner1, mem, owner, root);
        NextPage(old(owner), owner1, owner, root, start / PAGE_SIZE, page, PageCeil(end), false);
        if !ok { return; }
        IdentityKeepsNoUser(mem1, mem, root, page, flags);
        IdentityCompose(old(mem), mem1, mem, root, start / PAGE_SIZE, page, flags);
        addr := addr + PAGE_SIZE;
      }
      PageSteps(start, addr, end);
      ok := true;
    }

    /**
      vmm_map_kernel on a fresh root: every page of the kernel's regions and of the two device
      windows maps to itself with that region's permissions, and no other page is mapped.
     */
    method MapKernel(root: nat, lay: Layout) returns (ok: bool)
      requires Valid() && IsRoot(owner, root) && lay.Valid()
      requires forall page | 0 <= page < PAGES :: Entry(mem, root, PathOf(page)) == 0
      modifies `mem, `owner, pmm.bitmap
      ensures Valid() && TreeGrowth(old(mem), old(owner), mem, owner, root)
      ensures ok ==>
        forall page {:trigger PathOf(page)} | 0 <= page < PAGES ::
          Entry(mem, root, PathOf(page)) == KernelPte(lay, page)
      ensures if ok then Spent(old(owner), owner, root, KernelTables(lay), 0)
              else Short(old(owner), root, KernelTables(lay), 0)
    {
      hide Spent, Short, RangeTables, RangesTables, Entry, V, Leaf, R, W, X, U, Target, Forest, MakePte, KernelPte,
           IdentityMapped, PathOf, PageCeil, NoUserPages, TreeGrowth;
      BlankTree(mem, owner, lay, root);
      GrowthRefl(mem, owner, root);
      ghost var o1 := owner;
      ok := MapIdentityRange(root, lay.textStart, lay.textEnd, PTE_R + PTE_X, old(mem), old(owner));
      NextRange(lay, 0, old(owner), o1, owner, root);
      if !ok { return; }
      ghost var m1 := mem;
      o1 := owner;
      ok := MapIdentityRange(root, lay.rodataStart, lay.rodataEnd, PTE_R, old(mem), old(owner));
      NextRange(lay, 1, old(owner), o1, owner, root);
      if !ok { return; }
      ghost var m2 := mem;
      o1 := owner;
      ok := MapIdentityRange(root, lay.rodataEnd, lay.end, PTE_R + PTE_W, old(mem), old(owner));
      NextRange(lay, 2, old(owner), o1, owner, root);
      if !ok { return; }
      ghost var m3 := mem;
      o1 := owner;
      ok := MapIdentityRange(root, lay.end, RAM_END, PTE_R + PTE_W, old(mem), old(owner));
      NextRange(lay, 3, old(owner), o1, owner, root);
      if !ok { return; }
      ghost var m4 := mem;
      o1 := owner;
      ok := MapIdentityRange(root, UART0_BASE, UART0_BASE + UART0_SIZE, PTE_R + PTE_W, old(mem), old(owner));
      NextRange(lay, 4, old(owner), o1, owner, root);
      if !ok { return; }
      ghost var m5 := mem;
      o1 := owner;
      ok := MapIdentityRange(root, PLIC_BASE, PLIC_BASE + PLIC_SIZE, PTE_R + PTE_W, old(mem), old(owner));
      NextRange(lay, 5, old(owner), o1, owner, root);
      if !ok { return; }
      KernelMapIs(lay, old(mem), m1, m2, m3, m4, m5, mem, root);
    }
  }
}
