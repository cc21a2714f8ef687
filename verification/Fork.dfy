/** vmm_copy_uvm of kernel/mm/vmm.c: what fork's deep copy, merging into a tree that is not empty, means. */
module Fork {
  import opened Sv39
  import opened PageTrees
  import opened Budget
  import opened Vmm

  function FirstIndex(q: Path): nat
    requires q.Step?
  {
    if q.up.Top? then q.i else FirstIndex(q.up)
  }

  /** Pages below 2 GB: the first step is 0 or 1. */
  predicate LowPage(q: Path) { PagePath(q) && FirstIndex(q) < 2 }

  lemma {:induction false} SameFirst(p: Path, q: Path)
    requires p.Step? && q.Under(p)
    ensures q.Step? && FirstIndex(q) == FirstIndex(p)
    decreases q
  {
    if q != p { SameFirst(p, q.up); }
  }

  /** The child's page at `q` is a private copy of the parent's: same bytes, same ten low bits, new frame. */
  ghost predicate CopiedAt(mem0: Mem, owner0: Owners, mem: Mem, pr: nat, cr: nat, q: Path)
    requires |mem0| == |owner0| == |mem| == TOTAL_PAGES && q.Step?
  {
    var w, w' := Entry(mem0, pr, q), Entry(mem, cr, q);
    && UserLeaf(w') && w' % 1024 == w % 1024
    && InRam(Target(w)) && InRam(Target(w')) && owner0[Target(w')] == Free
    && mem[Target(w')] == mem0[Target(w)]
  }

  ghost predicate CopiedOrSame(mem0: Mem, owner0: Owners, mem: Mem, pr: nat, cr: nat, q: Path, due: bool)
    requires |mem0| == |owner0| == |mem| == TOTAL_PAGES && PagePath(q)
  {
    if due && LowPage(q) && UserLeaf(Entry(mem0, pr, q)) then CopiedAt(mem0, owner0, mem, pr, cr, q)
    else Entry(mem, cr, q) == Entry(mem0, cr, q)
  }

  /** Every user page of the parent at or under `p` is copied; the child's other translations are as before. */
  ghost predicate CopiedUnder(mem0: Mem, owner0: Owners, mem: Mem, pr: nat, cr: nat, p: Path)
  {
    && |mem0| == |owner0| == |mem| == TOTAL_PAGES
    && forall q {:trigger CopiedOrSame(mem0, owner0, mem, pr, cr, q, q.Under(p))} | PagePath(q) ::
         CopiedOrSame(mem0, owner0, mem, pr, cr, q, q.Under(p))
  }

  /** `q` goes through one of the first `n` entries of the table at `path`. */
  predicate Due(path: Path, n: nat, q: Path) { q.Under(path) && q != path && Branch(path, q) < n }

  ghost predicate CopiedBelow(mem0: Mem, owner0: Owners, mem: Mem, pr: nat, cr: nat, path: Path, n: nat)
  {
    && |mem0| == |owner0| == |mem| == TOTAL_PAGES
    && forall q {:trigger CopiedOrSame(mem0, owner0, mem, pr, cr, q, Due(path, n, q))} | PagePath(q) ::
         CopiedOrSame(mem0, owner0, mem, pr, cr, q, Due(path, n, q))
  }

  /** A tree other than the one that grows is read as before. */
  lemma OtherTree(mem: Mem, owner: Owners, mem': Mem, owner': Owners, grown: nat, r: nat, q: Path)
    requires Forest(mem, owner) && TreeGrowth(mem, owner, mem', owner', grown) && r != grown
    requires IsRoot(owner, r) && 0 < q.Depth() <= 3 && q.Valid()
    ensures Entry(mem', r, q) == Entry(mem, r, q)
  {
    EntryFrame(mem, mem', owner, r, q);
  }

  /** One more entry copied. */
  lemma CopyStep(mem0: Mem, owner0: Owners, mem1: Mem, owner1: Owners, mem2: Mem, owner2: Owners,
                 pr: nat, cr: nat, path: Path, i: nat)
    requires Forest(mem0, owner0) && Forest(mem1, owner1) && IsRoot(owner0, pr) && IsRoot(owner0, cr) && pr != cr
    requires TreeGrowth(mem0, owner0, mem1, owner1, cr) && TreeGrowth(mem1, owner1, mem2, owner2, cr)
    requires CopiedBelow(mem0, owner0, mem1, pr, cr, path, i)
    requires CopiedUnder(mem1, owner1, mem2, pr, cr, Step(path, i))
    ensures CopiedBelow(mem0, owner0, mem2, pr, cr, path, i + 1)
  {
    hide V, Leaf, R, W, X, U, Target, Forest, CopiedOrSame, TreeGrowth;
    forall q {:trigger CopiedOrSame(mem0, owner0, mem2, pr, cr, q, Due(path, i + 1, q))} | PagePath(q)
      ensures CopiedOrSame(mem0, owner0, mem2, pr, cr, q, Due(path, i + 1, q))
    {
      assert CopiedOrSame(mem0, owner0, mem1, pr, cr, q, Due(path, i, q));
      assert CopiedOrSame(mem1, owner1, mem2, pr, cr, q, q.Under(Step(path, i)));
      if q.Under(Step(path, i)) { BranchIsUnique(path, i, q); }
      CopyStepAt(mem0, owner0, mem1, owner1, mem2, owner2, pr, cr, q, Due(path, i, q), q.Under(Step(path, i)));
      assert Due(path, i + 1, q) == (Due(path, i, q) || q.Under(Step(path, i)));
    }
  }

  lemma CopyStepAt(mem0: Mem, owner0: Owners, mem1: Mem, owner1: Owners, mem2: Mem, owner2: Owners,
                   pr: nat, cr: nat, q: Path, before: bool, now: bool)
    requires Forest(mem0, owner0) && Forest(mem1, owner1) && IsRoot(owner0, pr) && IsRoot(owner0, cr) && pr != cr
    requires TreeGrowth(mem0, owner0, mem1, owner1, cr) && TreeGrowth(mem1, owner1, mem2, owner2, cr)
    requires PagePath(q) && !(before && now)
    requires CopiedOrSame(mem0, owner0, mem1, pr, cr, q, before)
    requires CopiedOrSame(mem1, owner1, mem2, pr, cr, q, now)
    ensures CopiedOrSame(mem0, owner0, mem2, pr, cr, q, before || now)
  {
    hide V, Leaf, R, W, X, Target;
    OtherTree(mem0, owner0, mem1, owner1, cr, pr, q);
    EntryRole(mem0, owner0, pr, q);
    EntryRole(mem1, owner1, cr, q);
  }

  /** The low ten bits carried over to an entry for another frame. */
  lemma CopiedPte(g: nat, pte: Word)
    requires g < TOTAL_PAGES
    ensures var w := PaToPte(FrameAddr(g)) + pte % 1024;
      && w < WORD_LIMIT && Target(w) == g && w % 1024 == pte % 1024
      && V(w) == V(pte) && Leaf(w) == Leaf(pte) && R(w) == R(pte) && W(w) == W(pte) && X(w) == X(pte) && U(w) == U(pte)
  {
    LowBits(FrameAddr(g) / 4096, pte % 1024);
    LowBits(pte / 1024, pte % 1024);
  }

  /** Nothing is due under an entry that maps no user page and points to no table. */
  lemma NothingDue(mem: Mem, owner: Owners, pt: nat, i: nat, cr: nat)
    requires Forest(mem, owner) && pt < TOTAL_PAGES && IsTable(owner[pt]) && i < ENTRIES && TableShape(mem[pt])
    requires !V(mem[pt].e[i]) || (!U(mem[pt].e[i]) && Leaf(mem[pt].e[i])) || FirstIndex(Step(owner[pt].path, i)) >= 2
    ensures CopiedUnder(mem, owner, mem, owner[pt].root, cr, Step(owner[pt].path, i))
  {
    hide V, Leaf, R, W, X, U, Target;
    var p, pr := Step(owner[pt].path, i), owner[pt].root;
    EntryOfTable(mem, owner, pt, i);
    forall q {:trigger CopiedOrSame(mem, owner, mem, pr, cr, q, q.Under(p))} | PagePath(q)
      ensures CopiedOrSame(mem, owner, mem, pr, cr, q, q.Under(p))
    {
      if q.Under(p) {
        SameFirst(p, q);
        if q != p {
          UnderDepth(p, q);
          if !V(mem[pt].e[i]) { BlockedBelow(mem, owner, pt, i, q); }
          ZeroIsInvalid();
        }
      }
    }
  }

  // ---- what the copy costs ----

  /** The places of tree `r` below 2 GB, tables and pages. */
  ghost function Places(owner: Owners, r: nat): set<Path> {
    set f: nat | f < |owner| && owner[f].Node? && owner[f].root == r && owner[f].path.Step?
      && FirstIndex(owner[f].path) < 2 :: owner[f].path
  }

  /** The tables among them at or under `p`, and the pages. */
  ghost function TablesUnder(owner: Owners, r: nat, p: Path): set<Path> {
    set q | q in Places(owner, r) && q.Depth() < 3 && q.Under(p)
  }
  ghost function PagesUnder(owner: Owners, r: nat, p: Path): set<Path> {
    set q | q in Places(owner, r) && q.Depth() >= 3 && q.Under(p)
  }

  /** Those that go through one of the first `n` entries of the table at `path`. */
  ghost function TablesDue(owner: Owners, r: nat, path: Path, n: nat): set<Path> {
    set q | q in Places(owner, r) && q.Depth() < 3 && Due(path, n, q)
  }
  ghost function PagesDue(owner: Owners, r: nat, path: Path, n: nat): set<Path> {
    set q | q in Places(owner, r) && q.Depth() >= 3 && Due(path, n, q)
  }

  /** A copy below the table at `path`, down to its entry `n`: paid for, or not to be paid for. */
  ghost predicate PaidBelow(owner: Owners, owner': Owners, pr: nat, cr: nat, path: Path, n: nat) {
    Spent(owner, owner', cr, TablesDue(owner, pr, path, n), |PagesDue(owner, pr, path, n)|)
  }
  ghost predicate TooFewBelow(owner: Owners, pr: nat, cr: nat, path: Path) {
    Short(owner, cr, TablesDue(owner, pr, path, ENTRIES), |PagesDue(owner, pr, path, ENTRIES)|)
  }
  ghost predicate PaidUnder(owner: Owners, owner': Owners, pr: nat, cr: nat, p: Path) {
    Spent(owner, owner', cr, TablesUnder(owner, pr, p), |PagesUnder(owner, pr, p)|)
  }
  ghost predicate TooFewUnder(owner: Owners, pr: nat, cr: nat, p: Path) {
    Short(owner, cr, TablesUnder(owner, pr, p), |PagesUnder(owner, pr, p)|)
  }

  lemma {:induction false} ThroughEntry(path: Path, i: nat, q: Path)
    requires q.Under(path) && q != path && Branch(path, q) == i
    ensures q.Under(Step(path, i))
    decreases q
  {
    if q.up != path { ThroughEntry(path, i, q.up); }
  }

  /** One more entry of a table. */
  lemma DueStep(owner: Owners, r: nat, path: Path, i: nat)
    ensures TablesDue(owner, r, path, i + 1) == TablesDue(owner, r, path, i) + TablesUnder(owner, r, Step(path, i))
    ensures |PagesDue(owner, r, path, i + 1)| == |PagesDue(owner, r, path, i)| + |PagesUnder(owner, r, Step(path, i))|
  {
    hide Places;
    forall q: Path
      ensures Due(path, i + 1, q) == (Due(path, i, q) || q.Under(Step(path, i)))
      ensures !(Due(path, i, q) && q.Under(Step(path, i)))
    {
      if q.Under(Step(path, i)) { BranchIsUnique(path, i, q); }
      if q.Under(path) && q != path && Branch(path, q) == i { ThroughEntry(path, i, q); }
    }
    assert TablesDue(owner, r, path, i + 1) == TablesDue(owner, r, path, i) + TablesUnder(owner, r, Step(path, i));
    assert PagesDue(owner, r, path, i + 1) == PagesDue(owner, r, path, i) + PagesUnder(owner, r, Step(path, i));
    UnionSize(PagesDue(owner, r, path, i), PagesUnder(owner, r, Step(path, i)));
  }

  lemma DueIsMonotone(owner: Owners, r: nat, path: Path, n: nat)
    requires n <= ENTRIES
    ensures TablesDue(owner, r, path, n) <= TablesDue(owner, r, path, ENTRIES)
    ensures |PagesDue(owner, r, path, n)| <= |PagesDue(owner, r, path, ENTRIES)|
  {
    hide Places;
    SubsetSize(PagesDue(owner, r, path, n), PagesDue(owner, r, path, ENTRIES));
  }

  lemma NothingPaid(owner: Owners, pr: nat, cr: nat, path: Path)
    ensures PaidBelow(owner, owner, pr, cr, path, 0)
  {
    hide Spent, Places;
    SpentNothing(owner, cr);
    assert TablesDue(owner, pr, path, 0) == {} && PagesDue(owner, pr, path, 0) == {};
  }

  /** The parent's places stay while the child's tree grows. */
  lemma ParentStays(mem: Mem, owner: Owners, mem': Mem, owner': Owners, pr: nat, cr: nat)
    requires TreeGrowth(mem, owner, mem', owner', cr) && pr != cr
    ensures Places(owner', pr) == Places(owner, pr)
  {
    forall q ensures q in Places(owner', pr) <==> q in Places(owner, pr) {
      if q in Places(owner', pr) {
        var f: nat :| f < |owner'| && owner'[f] == Node(pr, q);
        assert owner[f] == Node(pr, q);
      }
      if q in Places(owner, pr) {
        var f: nat :| f < |owner| && owner[f] == Node(pr, q);
        assert owner'[f] == Node(pr, q);
      }
    }
  }

  /** One more entry copied, or the whole not to be paid for. */
  lemma PayStep(owner: Owners, owner1: Owners, owner2: Owners, pr: nat, cr: nat, path: Path, i: nat)
    requires i < ENTRIES && PaidBelow(owner, owner1, pr, cr, path, i) && Places(owner1, pr) == Places(owner, pr)
    ensures PaidUnder(owner1, owner2, pr, cr, Step(path, i)) ==> PaidBelow(owner, owner2, pr, cr, path, i + 1)
    ensures TooFewUnder(owner1, pr, cr, Step(path, i)) ==> TooFewBelow(owner, pr, cr, path)
  {
    hide Spent, Short, Places;
    var p := Step(path, i);
    DueStep(owner, pr, path, i);
    DueIsMonotone(owner, pr, path, i + 1);
    assert TablesUnder(owner1, pr, p) == TablesUnder(owner, pr, p);
    assert PagesUnder(owner1, pr, p) == PagesUnder(owner, pr, p);
    NextPart(owner, owner1, owner2, cr, TablesDue(owner, pr, path, i), |PagesDue(owner, pr, path, i)|,
      TablesUnder(owner, pr, p), |PagesUnder(owner, pr, p)|, TablesDue(owner, pr, path,
          ENTRIES), |PagesDue(owner, pr, path, ENTRIES)|);
  }

  /** An entry that maps no user page and points to no table costs nothing. */
  lemma NothingToPay(mem: Mem, owner: Owners, pt: nat, i: nat, cr: nat)
    requires Forest(mem, owner) && pt < TOTAL_PAGES && IsTable(owner[pt]) && i < ENTRIES && TableShape(mem[pt])
    requires !V(mem[pt].e[i]) || (!U(mem[pt].e[i]) && Leaf(mem[pt].e[i])) || FirstIndex(Step(owner[pt].path, i)) >= 2
    ensures PaidUnder(owner, owner, owner[pt].root, cr, Step(owner[pt].path, i))
  {
    hide V, Leaf, R, W, X, U, Target, Spent, EntriesOk;
    var p, pr := Step(owner[pt].path, i), owner[pt].root;
    EntryOfTable(mem, owner, pt, i);
    forall q | q in Places(owner, pr) ensures !q.Under(p) {
      var f: nat :| f < |owner| && owner[f] == Node(pr, q);
      if q.Under(p) { SameFirst(p, q); NothingBelow(mem, owner, pt, i, f); }
    }
    assert TablesUnder(owner, pr, p) == {} && PagesUnder(owner, pr, p) == {};
    SpentNothing(owner, cr);
  }

  /** A user page costs one frame. */
  lemma PageToPay(mem: Mem, owner: Owners, owner': Owners, pt: nat, i: nat, cr: nat)
    requires Forest(mem, owner) && pt < TOTAL_PAGES && IsTable(owner[pt]) && i < ENTRIES && TableShape(mem[pt])
    requires UserLeaf(mem[pt].e[i]) && FirstIndex(Step(owner[pt].path, i)) < 2
    ensures var (pr, p) := (owner[pt].root, Step(owner[pt].path, i));
      && (Spent(owner, owner', cr, {}, 1) ==> PaidUnder(owner, owner', pr, cr, p))
      && (Short(owner, cr, {}, 1) ==> TooFewUnder(owner, pr, cr, p))
  {
    hide V, Leaf, R, W, X, U, Target, Spent, Short, EntriesOk;
    var p, pr := Step(owner[pt].path, i), owner[pt].root;
    EntryOfTable(mem, owner, pt, i);
    forall q | q in Places(owner, pr) ensures q.Under(p) <==> q == p {
      var f: nat :| f < |owner| && owner[f] == Node(pr, q);
      assert NodeOk(mem, owner, f);
      if q.Under(p) { UnderDepth(p, q); }
    }
    assert owner[Target(mem[pt].e[i])] == Node(pr, p);
    assert p in Places(owner, pr);
    assert TablesUnder(owner, pr, p) == {} && PagesUnder(owner, pr, p) == {p};
  }

  /** A table costs what is below it, and itself if the child lacks it. */
  lemma TableToPay(mem: Mem, owner: Owners, owner1: Owners, owner2: Owners, pt: nat, i: nat, cr: nat)
    requires Forest(mem, owner) && pt < TOTAL_PAGES && IsTable(owner[pt]) && i < ENTRIES && TableShape(mem[pt])
    requires Points(mem[pt].e[i]) && FirstIndex(Step(owner[pt].path, i)) < 2
    requires Spent(owner, owner1, cr, {Step(owner[pt].path, i)}, 0)
    requires Places(owner1, owner[pt].root) == Places(owner, owner[pt].root)
    ensures var (pr, p) := (owner[pt].root, Step(owner[pt].path, i));
      && (PaidBelow(owner1, owner2, pr, cr, p, ENTRIES) ==> PaidUnder(owner, owner2, pr, cr, p))
      && (TooFewBelow(owner1, pr, cr, p) ==> TooFewUnder(owner, pr, cr, p))
  {
    var p, pr := Step(owner[pt].path, i), owner[pt].root;
    TableAndBelow(mem, owner, pt, i);
    assert TablesDue(owner1, pr, p, ENTRIES) == TablesDue(owner, pr, p, ENTRIES);
    assert PagesDue(owner1, pr, p, ENTRIES) == PagesDue(owner, pr, p, ENTRIES);
    NextPart(owner, owner1, owner2, cr, {p}, 0, TablesDue(owner, pr, p, ENTRIES), |PagesDue(owner, pr, p, ENTRIES)|,
      TablesUnder(owner, pr, p), |PagesUnder(owner, pr, p)|);
  }

  /** A table the child lacks, with every frame in use. */
  lemma NoTableToPay(mem: Mem, owner: Owners, pt: nat, i: nat, cr: nat)
    requires Forest(mem, owner) && pt < TOTAL_PAGES && IsTable(owner[pt]) && i < ENTRIES && TableShape(mem[pt])
    requires Points(mem[pt].e[i]) && FirstIndex(Step(owner[pt].path, i)) < 2
    requires NoFree(owner) && Step(owner[pt].path, i) !in Tables(owner, cr)
    ensures TooFewUnder(owner, owner[pt].root, cr, Step(owner[pt].path, i))
  {
    TableAndBelow(mem, owner, pt, i);
    hide Places, Forest, Tables, FreeFrames, NoFree, EntriesOk;
    var p, pr := Step(owner[pt].path, i), owner[pt].root;
    NoFreeIsZero(owner);
    SubsetSize({p} - Tables(owner, cr), TablesUnder(owner, pr, p) - Tables(owner, cr));
    assert {p} - Tables(owner, cr) == {p};
  }

  lemma TableAndBelow(mem: Mem, owner: Owners, pt: nat, i: nat)
    requires Forest(mem, owner) && pt < TOTAL_PAGES && IsTable(owner[pt]) && i < ENTRIES && TableShape(mem[pt])
    requires Points(mem[pt].e[i]) && FirstIndex(Step(owner[pt].path, i)) < 2
    ensures var (pr, p) := (owner[pt].root, Step(owner[pt].path, i));
      && TablesUnder(owner, pr, p) == {p} + TablesDue(owner, pr, p, ENTRIES)
      && PagesUnder(owner, pr, p) == PagesDue(owner, pr, p, ENTRIES)
  {
    hide V, Leaf, R, W, X, U, Target, EntriesOk;
    var p, pr := Step(owner[pt].path, i), owner[pt].root;
    EntryOfTable(mem, owner, pt, i);
    forall q | q in Places(owner, pr) ensures q.Under(p) <==> q == p || Due(p, ENTRIES, q) {
      var f: nat :| f < |owner| && owner[f] == Node(pr, q);
      assert NodeOk(mem, owner, f);
      if q.Under(p) && q != p { BranchIsValid(p, q); }
    }
    assert owner[Target(mem[pt].e[i])] == Node(pr, p);
    assert p in Places(owner, pr);
  }

  /** Copy the user page `pte` maps to a fresh frame, mapped by entry `i` of `childPt` with the same ten low bits. */
  method CopyPage(vm: AddressSpaces, pte: Word, childPt: nat, i: nat) returns (ok: bool)
    requires vm.Valid() && childPt < TOTAL_PAGES && i < ENTRIES
    requires vm.owner[childPt].Node? && vm.owner[childPt].path.Depth() == 2
    requires TableShape(vm.mem[childPt]) && !UserLeaf(vm.mem[childPt].e[i])
    requires UserLeaf(pte) && !(W(pte) && X(pte)) && (W(pte) ==> R(pte)) && InRam(Target(pte))
    requires PageShape(vm.mem[Target(pte)])
    requires vm.owner[Target(pte)] != Free
    requires PagePath(Step(vm.owner[childPt].path, i))
    modifies vm`mem, vm`owner, vm.pmm.bitmap
    ensures vm.Valid() && TreeGrowth(old(vm.mem), old(vm.owner), vm.mem, vm.owner, old(vm.owner)[childPt].root)
    ensures var cr := old(vm.owner)[childPt].root;
      if ok then Spent(old(vm.owner), vm.owner, cr, {}, 1) else Short(old(vm.owner), cr, {}, 1)
    ensures ok ==> var (cr, p) := (old(vm.owner)[childPt].root, Step(old(vm.owner)[childPt].path, i));
      && SameLeavesBut(old(vm.mem), vm.mem, old(vm.owner), cr, p)
      && var w' := Entry(vm.mem, cr, p);
         && UserLeaf(w') && w' % 1024 == pte % 1024 && InRam(Target(w'))
         && old(vm.owner)[Target(w')] == Free && vm.mem[Target(w')] == old(vm.mem)[Target(pte)]
  {
    hide V, Leaf, R, W, X, U, Target, EntriesOk, EntryOk, NodeOk, Spent, Short, NoFree, TreeGrowth, SameLeaves,
         SameLeavesBut, Forest, Entry;
    GrowthRefl(vm.mem, vm.owner, vm.owner[childPt].root);
    var newPage := vm.AllocPage();
    if newPage == 0 { ShortWhenFull(vm.owner, vm.owner[childPt].root, {}, 1); return false; }
    var g := FrameIndex(newPage);
    CopiedPte(g, pte);
    NonTableWrite(old(vm.mem), old(vm.owner), g, vm.mem[FrameOf(pte)]);
    RoleOutside(vm.mem[g := vm.mem[FrameOf(pte)]], old(vm.owner), g, InFlight);
    vm.mem := vm.mem[g := vm.mem[FrameOf(pte)]];
    vm.WriteLeaf(childPt, i, PaToPte(newPage) + pte % 1024);
    PageCopied(old(vm.mem), old(vm.owner), g, old(vm.mem)[FrameOf(pte)], vm.mem, vm.owner, childPt, i,
               PaToPte(newPage) + pte % 1024);
    ok := true;
  }

  /** What filling a free frame and mapping it by entry `i` of the child's table comes to. */
  lemma PageCopied(mem: Mem, owner: Owners, g: nat, content: Frame, mem2: Mem, owner2: Owners, childPt: nat, i: nat,
                   w: Word)
    requires Forest(mem, owner) && g < TOTAL_PAGES && owner[g] == Free && childPt < TOTAL_PAGES && i < ENTRIES
    requires g != childPt
    requires owner[childPt].Node? && owner[childPt].path.Depth() == 2 && TableShape(mem[childPt]) && U(w)
    requires Target(w) == g
    requires mem2 == WriteEntry(mem[g := content], childPt, i, w)
    requires owner2 == OwnersAfterLeaf(owner[g := InFlight], childPt, i, w)
    requires SameLeavesBut(mem[g := content], mem2, owner[g := InFlight], owner[childPt].root,
                           Step(owner[childPt].path, i))
    ensures var (cr, p) := (owner[childPt].root, Step(owner[childPt].path, i));
      && SameLeavesBut(mem, mem2, owner, cr, p) && TreeGrowth(mem, owner, mem2, owner2, cr) && mem2[g] == content
      && Spent(owner, owner2, cr, {}, 1)
  {
    hide V, Leaf, R, W, X, U, Target, EntriesOk, EntryOk, NodeOk, Spent, Entry;
    var (cr, p) := (owner[childPt].root, Step(owner[childPt].path, i));
    NonTableWrite(mem, owner, g, content);
    NewOther(owner, g, Node(cr, p), cr);
    assert owner2 == owner[g := Node(cr, p)];
    forall r', q' {:trigger Entry(mem2, r', q')} | IsRoot(owner, r') && PagePath(q') && !(r' == cr && q' == p)
      ensures Entry(mem2, r', q') == Entry(mem, r', q')
    {
      assert IsRoot(owner[g := InFlight], r');
      assert Entry(mem[g := content], r', q') == Entry(mem, r', q');
    }
  }

  /**
    vmm_copy_uvm below the tables `parentPt` and `childPt`, which sit at the same `path` of the
    parent's and the child's tree. `ok` is false where the kernel panics for want of a frame; its
    two other panics, an entry at the last level that is no leaf and a leaf in the child where the
    parent has a table, are shown not to happen.
   */
  method CopyUvm(vm: AddressSpaces, parentPt: nat, childPt: nat, level: nat, ghost pr: nat, ghost cr: nat,
                 ghost path: Path)
    returns (ok: bool)
    requires vm.Valid() && pr != cr && IsRoot(vm.owner, pr) && IsRoot(vm.owner, cr)
    requires level < 3 && path.Depth() == 2 - level && path.Valid() && (path.Step? ==> FirstIndex(path) < 2)
    requires parentPt < TOTAL_PAGES && vm.owner[parentPt] == Node(pr, path)
    requires childPt < TOTAL_PAGES && vm.owner[childPt] == Node(cr, path)
    requires forall q {:trigger Entry(vm.mem, cr, q)} | PagePath(q) && q.Under(path) :: !UserLeaf(Entry(vm.mem, cr, q))
    modifies vm`mem, vm`owner, vm.pmm.bitmap
    ensures vm.Valid() && TreeGrowth(old(vm.mem), old(vm.owner), vm.mem, vm.owner, cr)
    ensures ok ==> CopiedUnder(old(vm.mem), old(vm.owner), vm.mem, pr, cr, path)
    ensures if ok then PaidBelow(old(vm.owner), vm.owner, pr, cr, path, ENTRIES)
            else TooFewBelow(old(vm.owner), pr, cr, path)
    decreases level
  {
    hide V, Leaf, R, W, X, U, Target, EntriesOk, EntryOk, NodeOk, LeafOk, CopiedOrSame, UserLeaf, PaidBelow, PaidUnder,
         TooFewBelow, TooFewUnder, Places;
    var i := 0;
    NothingBelowYet(vm.mem, vm.owner, pr, cr, path);
    NothingPaid(vm.owner, pr, cr, path);
    while i < ENTRIES
      invariant 0 <= i <= ENTRIES
      invariant vm.Valid() && TreeGrowth(old(vm.mem), old(vm.owner), vm.mem, vm.owner, cr)
      invariant CopiedBelow(old(vm.mem), old(vm.owner), vm.mem, pr, cr, path, i)
      invariant PaidBelow(old(vm.owner), vm.owner, pr, cr, path, i)
    {
      ghost var mem1, owner1 := vm.mem, vm.owner;
      EntryOfTable(vm.mem, vm.owner, parentPt, i);
      ParentStays(old(vm.mem), old(vm.owner), vm.mem, vm.owner, pr, cr);
      if !(level == 2 && i >= 2) {
        NotYetDue(old(vm.mem), old(vm.owner), vm.mem, pr, cr, path, i);
        ok := CopyEntry(vm, parentPt, childPt, level, i, pr, cr, path);
        GrowthStep(old(vm.mem), old(vm.owner), mem1, owner1, vm.mem, vm.owner, cr);
        PayStep(old(vm.owner), owner1, vm.owner, pr, cr, path, i);
        if !ok { return; }
      } else {
        NothingDue(vm.mem, vm.owner, parentPt, i, cr);
        NothingToPay(vm.mem, vm.owner, parentPt, i, cr);
        PayStep(old(vm.owner), owner1, vm.owner, pr, cr, path, i);
      }
      CopyStep(old(vm.mem), old(vm.owner), mem1, owner1, vm.mem, vm.owner, pr, cr, path, i);
      i := i + 1;
    }
    AllDue(old(vm.mem), old(vm.owner), vm.mem, pr, cr, path);
    ok := true;
  }

  /** The body of that loop for one entry. */
  method CopyEntry(vm: AddressSpaces, parentPt: nat, childPt: nat, level: nat, i: nat, ghost pr: nat, ghost cr: nat,
                   ghost path: Path)
    returns (ok: bool)
    requires vm.Valid() && pr != cr && IsRoot(vm.owner, pr) && IsRoot(vm.owner, cr)
    requires level < 3 && i < ENTRIES && path.Depth() == 2 - level && path.Valid() && FirstIndex(Step(path, i)) < 2
    requires parentPt < TOTAL_PAGES && vm.owner[parentPt] == Node(pr, path)
    requires childPt < TOTAL_PAGES && vm.owner[childPt] == Node(cr, path)
    requires forall q {:trigger Entry(vm.mem, cr, q)} | PagePath(q) && q.Under(Step(path, i)) ::
      !UserLeaf(Entry(vm.mem, cr, q))
    modifies vm`mem, vm`owner, vm.pmm.bitmap
    ensures vm.Valid() && TreeGrowth(old(vm.mem), old(vm.owner), vm.mem, vm.owner, cr)
    ensures ok ==> CopiedUnder(old(vm.mem), old(vm.owner), vm.mem, pr, cr, Step(path, i))
    ensures if ok then PaidUnder(old(vm.owner), vm.owner, pr, cr, Step(path, i))
            else TooFewUnder(old(vm.owner), pr, cr, Step(path, i))
    decreases level, 0
  {
    hide V, R, W, X, U, Target, EntriesOk, CopiedOrSame, CopiedUnder, NoFree, PaidBelow, PaidUnder, TooFewBelow,
         TooFewUnder, Places, Spent, Short, Tables;
    EntryOfTable(vm.mem, vm.owner, parentPt, i);
    EntryOfTable(vm.mem, vm.owner, childPt, i);
    var pte := vm.mem[parentPt].e[i];
    var isLeaf := R(pte) || W(pte) || X(pte);
    if !V(pte) || (isLeaf && !U(pte)) {
      NothingDue(vm.mem, vm.owner, parentPt, i, cr);
      NothingToPay(vm.mem, vm.owner, parentPt, i, cr);
      GrowthRefl(vm.mem, vm.owner, cr);
      ok := true;
    } else if isLeaf {
      assert NodeOk(vm.mem, vm.owner, Target(pte));
      ok := CopyPage(vm, pte, childPt, i);
      PageToPay(old(vm.mem), old(vm.owner), vm.owner, parentPt, i, cr);
      if ok { OneDue(old(vm.mem), old(vm.owner), vm.mem, pr, cr, Step(path, i)); }
    } else {
      assert level > 0;                          // not "invalid non-leaf PTE at level 0"
      var nextParent := FrameOf(pte);
      var nextChild := 0;
      var childPte := vm.mem[childPt].e[i];
      EntryIsTable(vm.mem, vm.owner, childPt, i);
      if V(childPte) {
        assert !Leaf(childPte);                  // not "child has a leaf where parent has a table"
        nextChild := FrameOf(childPte);
        GrowthRefl(vm.mem, vm.owner, cr);
        OldTable(vm.owner, cr, Step(path, i));
      } else {
        ok, nextChild := vm.AddTable(childPt, i);
        if !ok { NoTableToPay(vm.mem, vm.owner, parentPt, i, cr); return; }
      }
      ghost var mem1, owner1 := vm.mem, vm.owner;
      ParentStays(old(vm.mem), old(vm.owner), vm.mem, vm.owner, pr, cr);
      ok := CopyUvm(vm, nextParent, nextChild, level - 1, pr, cr, Step(path, i));
      TableToPay(old(vm.mem), old(vm.owner), owner1, vm.owner, parentPt, i, cr);
      GrowthStep(old(vm.mem), old(vm.owner), mem1, owner1, vm.mem, vm.owner, cr);
      if ok { CopyAfterLink(old(vm.mem), old(vm.owner), mem1, owner1, vm.mem, pr, cr, Step(path, i)); }
    }
  }

  lemma NothingBelowYet(mem: Mem, owner: Owners, pr: nat, cr: nat, path: Path)
    requires |mem| == |owner| == TOTAL_PAGES
    ensures TreeGrowth(mem, owner, mem, owner, cr) && CopiedBelow(mem, owner, mem, pr, cr, path, 0)
  {
    hide UserLeaf, Entry, LowPage;
  }

  lemma NotYetDue(mem: Mem, owner: Owners, mem': Mem, pr: nat, cr: nat, path: Path, i: nat)
    requires path.Depth() < 3 && CopiedBelow(mem, owner, mem', pr, cr, path, i)
    requires forall q {:trigger Entry(mem, cr, q)} | PagePath(q) && q.Under(path) :: !UserLeaf(Entry(mem, cr, q))
    ensures forall q {:trigger Entry(mem', cr, q)} | PagePath(q) && q.Under(Step(path, i)) ::
      !UserLeaf(Entry(mem', cr, q))
  {
    hide UserLeaf;
    forall q {:trigger Entry(mem', cr, q)} | PagePath(q) && q.Under(Step(path, i))
      ensures !UserLeaf(Entry(mem', cr, q))
    {
      BranchIsUnique(path, i, q);
      assert CopiedOrSame(mem, owner, mem', pr, cr, q, Due(path, i, q));
    }
  }

  lemma AllDue(mem: Mem, owner: Owners, mem': Mem, pr: nat, cr: nat, path: Path)
    requires path.Depth() < 3 && CopiedBelow(mem, owner, mem', pr, cr, path, ENTRIES)
    ensures CopiedUnder(mem, owner, mem', pr, cr, path)
  {
    hide CopiedOrSame;
    forall q {:trigger CopiedOrSame(mem, owner, mem', pr, cr, q, q.Under(path))} | PagePath(q)
      ensures CopiedOrSame(mem, owner, mem', pr, cr, q, q.Under(path))
    {
      if q.Under(path) { BranchIsValid(path, q); }
      assert CopiedOrSame(mem, owner, mem', pr, cr, q, Due(path, ENTRIES, q));
    }
  }

  /** A copied page is all there is under its own path. */
  lemma OneDue(mem: Mem, owner: Owners, mem': Mem, pr: nat, cr: nat, p: Path)
    requires |mem| == |owner| == |mem'| == TOTAL_PAGES && PagePath(p) && IsRoot(owner, cr) && LowPage(p)
    requires UserLeaf(Entry(mem, pr, p)) && CopiedAt(mem, owner, mem', pr, cr, p)
    requires SameLeavesBut(mem, mem', owner, cr, p)
    ensures CopiedUnder(mem, owner, mem', pr, cr, p)
  {
    hide UserLeaf, Target, CopiedAt;
    forall q {:trigger CopiedOrSame(mem, owner, mem', pr, cr, q, q.Under(p))} | PagePath(q)
      ensures CopiedOrSame(mem, owner, mem', pr, cr, q, q.Under(p))
    {
      if q != p { PagesApart(p, q); }
    }
  }

  /** Linking the child's missing table first changes nothing the copy speaks about. */
  lemma CopyAfterLink(mem0: Mem, owner0: Owners, mem1: Mem, owner1: Owners, mem2: Mem, pr: nat, cr: nat, p: Path)
    requires Forest(mem0, owner0) && IsRoot(owner0, pr) && IsRoot(owner0, cr) && pr != cr
    requires TreeGrowth(mem0, owner0, mem1, owner1, cr) && SameLeaves(mem0, mem1, owner0)
    requires CopiedUnder(mem1, owner1, mem2, pr, cr, p)
    ensures CopiedUnder(mem0, owner0, mem2, pr, cr, p)
  {
    hide V, Leaf, Target;
    forall q {:trigger CopiedOrSame(mem0, owner0, mem2, pr, cr, q, q.Under(p))} | PagePath(q)
      ensures CopiedOrSame(mem0, owner0, mem2, pr, cr, q, q.Under(p))
    {
      assert CopiedOrSame(mem1, owner1, mem2, pr, cr, q, q.Under(p));
      assert Entry(mem1, pr, q) == Entry(mem0, pr, q) && Entry(mem1, cr, q) == Entry(mem0, cr, q);
      EntryRole(mem0, owner0, pr, q);
    }
  }
}
