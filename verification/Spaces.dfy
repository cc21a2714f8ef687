/**
  The address space of a process: what every live page table maps, how SYS_SBRK grows it, and
  why the heap never reaches the device windows that lie below its limit.
 */
module Spaces {
  import opened Sv39
  import opened Platform
  import opened PageTrees
  import opened Budget
  import opened Vmm
  import opened Elf
  import opened Fork
  import opened Mmu

  const PLIC_PAGE := PLIC_BASE / PAGE_SIZE

  predicate HeapLeaf(w: Word) { UserLeaf(w) && R(w) && W(w) }

  /** What the entry of `page` may be, with a heap from `base` to `brk`. */
  predicate PageOk(lay: Layout, page: nat, base: nat, brk: nat, w: Word)
    requires page < PAGES
  {
    if KernelFlags(lay, page) != 0 then w == KernelPte(lay, page)
    else if base / PAGE_SIZE <= page < PageCeil(brk) then HeapLeaf(w)
    else if page < base / PAGE_SIZE || page == STACK_PAGE then UserOrNothing(w)
    else w == 0
  }

  /**
    Tree `r` is a process's address space: kernel RAM and devices map to themselves without PTE_U,
    heap pages from `base` up to the break are mapped U, R and W, user memory otherwise lies only
    below `base` and in the stack page, and everything else, the guard page too, is unmapped.
   */
  ghost predicate SpaceOk(mem: Mem, owner: Owners, lay: Layout, r: nat, base: nat, brk: nat) {
    && IsRoot(owner, r) && base % PAGE_SIZE == 0 && base <= IMAGE_LIMIT && base <= brk <= HEAP_MAX
    && PageCeil(brk) <= PLIC_PAGE
    && forall page {:trigger PathOf(page)} | 0 <= page < PAGES ::
         PageOk(lay, page, base, brk, Entry(mem, r, PathOf(page)))
  }

  // ---- pigeonhole ----

  lemma {:induction false} BelowCount(s: set<nat>, n: nat)
    requires forall x | x in s :: x < n
    ensures |s| <= n
    decreases n
  {
    if n > 0 {
      var s' := s - {n - 1};
      BelowCount(s', n - 1);
      if n - 1 in s { assert s == s' + {n - 1}; } else { assert s == s'; }
    } else {
      assert s == {};
    }
  }

  /** The frames behind the user pages lo..hi of a tree are as many as the pages. */
  lemma {:induction false} FramesOfPages(mem: Mem, owner: Owners, r: nat, lo: nat, hi: nat) returns (s: set<nat>)
    requires Forest(mem, owner) && IsRoot(owner, r) && lo <= hi <= PAGES
    requires forall page {:trigger PathOf(page)} | lo <= page < hi :: UserLeaf(Entry(mem, r, PathOf(page)))
    ensures |s| == hi - lo
    ensures forall f | f in s :: f < TOTAL_PAGES && owner[f].Node? && InPages(owner[f].path, lo, hi)
    decreases hi
  {
    hide V, Leaf, U, Target, PathOf;
    if lo == hi { return {}; }
    var s' := FramesOfPages(mem, owner, r, lo, hi - 1);
    EntryRole(mem, owner, r, PathOf(hi - 1));
    var f: nat := Target(Entry(mem, r, PathOf(hi - 1)));
    assert owner[f] == Node(r, PathOf(hi - 1));
    assert f !in s';
    s := s' + {f};
  }

  /** A tree cannot map more user pages in a row than there are frames. */
  lemma MappedPagesAreFew(mem: Mem, owner: Owners, r: nat, lo: nat, hi: nat)
    requires Forest(mem, owner) && IsRoot(owner, r) && lo <= hi <= PAGES
    requires forall page {:trigger PathOf(page)} | lo <= page < hi :: UserLeaf(Entry(mem, r, PathOf(page)))
    ensures hi - lo <= TOTAL_PAGES
  {
    var s := FramesOfPages(mem, owner, r, lo, hi);
    BelowCount(s, TOTAL_PAGES);
  }

  // ---- growing the heap ----

  /** One more heap page: it is not a device page, because the frames run out before the heap gets there. */
  lemma OneMoreHeapPage(mem: Mem, owner: Owners, mem': Mem, owner': Owners, lay: Layout, r: nat, base: nat, addr: nat)
    requires Forest(mem, owner) && Forest(mem', owner') && SpaceOk(mem, owner, lay, r, base, addr) && IsRoot(owner', r)
    requires addr % PAGE_SIZE == 0 && addr + PAGE_SIZE <= HEAP_MAX
    requires SameLeavesBut(mem, mem', owner, r, PathOf(addr / PAGE_SIZE))
    requires HeapLeaf(Entry(mem', r, PathOf(addr / PAGE_SIZE)))
    requires lay.Valid()
    ensures addr < PLIC_BASE
    ensures SpaceOk(mem', owner', lay, r, base, addr + PAGE_SIZE)
  {
    hide V, R, W, X, U, Leaf, Forest, PathOf, KernelPte;
    var page := addr / PAGE_SIZE;
    assert PageCeil(addr) == page && PageCeil(addr + PAGE_SIZE) == page + 1;
    forall p {:trigger PathOf(p)} | 0 <= p < PAGES && p != page
      ensures Entry(mem', r, PathOf(p)) == Entry(mem, r, PathOf(p))
    {
      assert PathOf(p) != PathOf(page);
    }
    forall p {:trigger PathOf(p)} | base / PAGE_SIZE <= p < page + 1
      ensures UserLeaf(Entry(mem', r, PathOf(p)))
    {
      if p != page {
        assert PageOk(lay, p, base, addr, Entry(mem, r, PathOf(p)));
        assert KernelFlags(lay, p) == 0;
      }
    }
    MappedPagesAreFew(mem', owner', r, base / PAGE_SIZE, page + 1);
    assert KernelFlags(lay, page) == 0;
    forall p {:trigger PathOf(p)} | 0 <= p < PAGES
      ensures PageOk(lay, p, base, addr + PAGE_SIZE, Entry(mem', r, PathOf(p)))
    {
      assert PageOk(lay, p, base, addr, Entry(mem, r, PathOf(p)));
    }
  }

  /** The break moved within its page changes nothing that is mapped. */
  lemma SameCeil(mem: Mem, owner: Owners, lay: Layout, r: nat, base: nat, brk: nat, brk': nat)
    requires SpaceOk(mem, owner, lay, r, base, brk) && PageCeil(brk) == PageCeil(brk') && base <= brk' <= HEAP_MAX
    ensures SpaceOk(mem, owner, lay, r, base, brk')
  {
    hide PathOf, KernelPte, Entry, UserLeaf;
    forall p {:trigger PathOf(p)} | 0 <= p < PAGES
      ensures PageOk(lay, p, base, brk', Entry(mem, r, PathOf(p)))
    {
      assert PageOk(lay, p, base, brk, Entry(mem, r, PathOf(p)));
    }
  }

  lemma CeilSame(addr: nat, brk: nat)
    requires addr == PageCeil(brk) * PAGE_SIZE
    ensures PageCeil(addr) == PageCeil(brk) && addr >= brk && addr / PAGE_SIZE == PageCeil(brk)
    ensures brk <= HEAP_MAX ==> addr <= HEAP_MAX
  {
  }

  /** The pages lo..hi are new zeroed heap pages, and every other translation is as before. */
  ghost predicate Grown(mem: Mem, mem': Mem, owner: Owners, r: nat, lo: nat, hi: nat)
  {
    && (forall page {:trigger PathOf(page)} | lo <= page < hi && page < PAGES ::
          PageHolds(mem', r, PathOf(page), ZeroPage(), PTE_U + PTE_R + PTE_W))
    && (forall r', q {:trigger Entry(mem', r', q)} |
          IsRoot(owner, r') && PagePath(q) && !(r' == r && InPages(q, lo, hi)) ::
          Entry(mem', r', q) == Entry(mem, r', q))
  }

  /** The new part of a grown heap reads as zeros, and can be read and written. */
  lemma GrownByte(mem: Mem, mem': Mem, owner: Owners, owner': Owners, r: nat, lo: nat, hi: nat, va: nat)
    requires Grown(mem, mem', owner, r, lo, hi) && Forest(mem', owner') && IsRoot(owner', r)
    requires lo * PAGE_SIZE <= va < hi * PAGE_SIZE && va < LOW_HALF
    ensures LoadByte(mem', r, va) == 0
    ensures HwTranslate(mem', r, va, Load, true) != -1 && HwTranslate(mem', r, va, Store, true) != -1
  {
    hide Forest, HwTranslate, LoadByte, PathOf, PageHolds, InPages;
    assert lo <= va / PAGE_SIZE < hi && va / PAGE_SIZE < PAGES;
    assert PathOf(va / PAGE_SIZE) == PathOf(va / PAGE_SIZE);
    ZeroedPage(mem', owner', r, va);
  }

  lemma GrownStep(mem: Mem, owner: Owners, mem1: Mem, owner1: Owners, mem2: Mem, owner2: Owners, r: nat, lo: nat,
                  page: nat)
    requires Forest(mem1, owner1) && IsRoot(owner, r) && lo <= page < PAGES
    requires TreeGrowth(mem, owner, mem1, owner1, r) && TreeGrowth(mem1, owner1, mem2, owner2, r)
    requires Grown(mem, mem1, owner, r, lo, page) && SameLeavesBut(mem1, mem2, owner1, r, PathOf(page))
    requires PageHolds(mem2, r, PathOf(page), ZeroPage(), PTE_U + PTE_R + PTE_W)
    ensures Grown(mem, mem2, owner, r, lo, page + 1)
  {
    hide V, Leaf, Target, Forest, PageHolds, ZeroPage, PathOf, PageOf;
    OnePage(page, page + 1);
    assert InPages(PathOf(page), lo, page + 1);
    forall p {:trigger PathOf(p)} | lo <= p < page + 1 && p < PAGES
      ensures PageHolds(mem2, r, PathOf(p), ZeroPage(), PTE_U + PTE_R + PTE_W)
    {
      if p != page {
        assert PathOf(p) != PathOf(page) by { assert PageOf(PathOf(p)) == p; }
        HoldsStays(mem1, owner1, mem2, owner2, r, PathOf(p), ZeroPage(), PTE_U + PTE_R + PTE_W);
      }
    }
    forall r', q {:trigger Entry(mem2, r', q)} | IsRoot(owner, r') && PagePath(q)
      && !(r' == r && InPages(q, lo, page + 1))
      ensures Entry(mem2, r', q) == Entry(mem, r', q)
    {
      assert IsRoot(owner1, r');
    }
  }

  /** What a heap that could not be grown is left with: every translation and every frame in use as they were. */
  lemma RolledBack(mem: Mem, owner: Owners, mem1: Mem, owner1: Owners, mem2: Mem, owner2: Owners, r: nat, lo: nat,
                   hi: nat)
    requires Forest(mem, owner) && Forest(mem1, owner1) && IsRoot(owner, r) && lo <= hi
    requires TreeGrowth(mem, owner, mem1, owner1, r) && Grown(mem, mem1, owner, r, lo, hi)
    requires forall page {:trigger PathOf(page)} | lo <= page < hi && page < PAGES :: Entry(mem, r, PathOf(page)) == 0
    requires Unmapped(mem1, owner1, mem2, owner2, r, lo, hi)
    ensures SameLeaves(mem, mem2, owner) && TreeGrowth(mem, owner, mem2, owner2, r) && IsRoot(owner2, r)
  {
    hide V, Leaf, Target, PageHolds, ZeroPage, PathOf, PageOf;
    forall r', q {:trigger Entry(mem2, r', q)} | IsRoot(owner, r') && PagePath(q)
      ensures Entry(mem2, r', q) == Entry(mem, r', q)
    {
      assert IsRoot(owner1, r');
      if r' == r && InPages(q, lo, hi) { SplitIsInjective(q); assert Entry(mem, r, PathOf(PageOf(q))) == 0; }
    }
    forall f {:trigger owner2[f]} | 0 <= f < TOTAL_PAGES && owner[f] != Free
      ensures owner2[f] == owner[f]
    {
      if owner1[f].Node? && owner1[f].root == r && InPages(owner1[f].path, lo, hi) {
        assert NodeOk(mem, owner, f);
        SplitIsInjective(owner[f].path);
        assert Entry(mem, r, PathOf(PageOf(owner[f].path))) == 0;
        ZeroIsInvalid();
      }
    }
  }

  /**
    The loop of SYS_SBRK. All or nothing: on success the pages from the old break to the new one
    are fresh zeroed frames and nothing else is mapped differently; on failure every translation
    and every frame in use are as they were. It succeeds exactly when there are free frames for the
    new pages and the tables missing on the way to them.
   */
  method GrowHeap(vm: AddressSpaces, lay: Layout, root: nat, ghost base: nat, oldBreak: nat,
                  newBreak: nat) returns (ok: bool)
    requires vm.Valid() && lay.Valid() && SpaceOk(vm.mem, vm.owner, lay, root, base, oldBreak)
    requires oldBreak < newBreak <= HEAP_MAX
    modifies vm`mem, vm`owner, vm.pmm.bitmap
    ensures vm.Valid() && TreeGrowth(old(vm.mem), old(vm.owner), vm.mem, vm.owner, root)
    ensures SpaceOk(vm.mem, vm.owner, lay, root, base, if ok then newBreak else oldBreak)
    ensures ok ==> Grown(old(vm.mem), vm.mem, old(vm.owner), root, PageCeil(oldBreak), PageCeil(newBreak))
    ensures !ok ==> SameLeaves(old(vm.mem), vm.mem, old(vm.owner))
    ensures var (lo, hi) := (PageCeil(oldBreak), PageCeil(newBreak));
      && lo <= hi <= PAGES
      && if ok then Spent(old(vm.owner), vm.owner, root, RangeTables(lo, hi), hi - lo)
         else Short(old(vm.owner), root, RangeTables(lo, hi), hi - lo)
  {
    hide V, Leaf, R, W, X, U, Target, Forest, PathOf, KernelPte, SpaceOk, Grown, TreeGrowth, ZeroPage, PageHolds,
         Unmapped, Spent, Short, RangeTables, Entry, SameLeaves;
    GrowthRefl(vm.mem, vm.owner, root);
    var oldPageEnd := PageCeil(oldBreak) * PAGE_SIZE;
    var newPageEnd := PageCeil(newBreak) * PAGE_SIZE;
    CeilSame(oldPageEnd, oldBreak);
    CeilSame(newPageEnd, newBreak);
    NothingYet(vm.owner, root, PageCeil(oldBreak));
    HeapStart(vm.mem, vm.owner, lay, root, base, oldBreak, oldPageEnd);
    var addr := oldPageEnd;
    while addr < newPageEnd
      invariant addr % PAGE_SIZE == 0 && oldPageEnd <= addr <= newPageEnd
      invariant vm.Valid() && TreeGrowth(old(vm.mem), old(vm.owner), vm.mem, vm.owner, root)
      invariant SpaceOk(vm.mem, vm.owner, lay, root, base, addr)
      invariant Grown(old(vm.mem), vm.mem, old(vm.owner), root, PageCeil(oldBreak), addr / PAGE_SIZE)
      invariant Spent(old(vm.owner), vm.owner, root, RangeTables(PageCeil(oldBreak), addr / PAGE_SIZE),
                      addr / PAGE_SIZE - PageCeil(oldBreak))
    {
      ok := GrowOnePage(vm, lay, root, base, addr, PageCeil(oldBreak), PageCeil(newBreak), old(vm.mem), old(vm.owner));
      if !ok {
        ghost var mem1, owner1 := vm.mem, vm.owner;
        HeapPagesAreUser(vm.mem, vm.owner, lay, root, base, addr, oldPageEnd);
        vm.UnmapRange(root, oldPageEnd, addr);
        HeapWasUnmapped(old(vm.mem), old(vm.owner), lay, root, base, oldBreak, addr / PAGE_SIZE);
        RolledBack(old(vm.mem), old(vm.owner), mem1, owner1, vm.mem, vm.owner, root, PageCeil(oldBreak),
                   addr / PAGE_SIZE);
        SpaceStays(old(vm.mem), old(vm.owner), vm.mem, vm.owner, lay, root, base, oldBreak);
        return;
      }
      addr := addr + PAGE_SIZE;
    }
    HeapEnd(vm.mem, vm.owner, lay, root, base, addr, newBreak);
    ok := true;
  }

  lemma NothingYet(owner: Owners, r: nat, lo: nat)
    requires lo <= PAGES
    ensures Spent(owner, owner, r, RangeTables(lo, lo), 0)
  {
    hide Spent;
    SpentNothing(owner, r);
  }

  /** One turn of the loop. */
  method GrowOnePage(vm: AddressSpaces, lay: Layout, root: nat, ghost base: nat, addr: nat, ghost lo: nat,
                     ghost hi: nat, ghost mem0: Mem, ghost owner0: Owners)
    returns (ok: bool)
    requires vm.Valid() && lay.Valid() && SpaceOk(vm.mem, vm.owner, lay, root, base, addr)
    requires addr % PAGE_SIZE == 0 && addr + PAGE_SIZE <= HEAP_MAX && lo <= addr / PAGE_SIZE < hi <= PAGES
    requires Spent(owner0, vm.owner, root, RangeTables(lo, addr / PAGE_SIZE), addr / PAGE_SIZE - lo)
    requires Forest(mem0, owner0) && IsRoot(owner0, root)
    requires TreeGrowth(mem0, owner0, vm.mem, vm.owner, root) && Grown(mem0, vm.mem, owner0, root, lo, addr / PAGE_SIZE)
    modifies vm`mem, vm`owner, vm.pmm.bitmap
    ensures vm.Valid() && TreeGrowth(mem0, owner0, vm.mem, vm.owner, root)
    ensures ok ==> SpaceOk(vm.mem, vm.owner, lay, root, base, addr + PAGE_SIZE)
    ensures ok ==> Grown(mem0, vm.mem, owner0, root, lo, addr / PAGE_SIZE + 1)
    ensures if ok then Spent(owner0, vm.owner, root, RangeTables(lo, addr / PAGE_SIZE + 1), addr / PAGE_SIZE + 1 - lo)
            else Short(owner0, root, RangeTables(lo, hi), hi - lo)
    ensures !ok ==> SpaceOk(vm.mem, vm.owner, lay, root, base, addr)
    ensures !ok ==> Grown(mem0, vm.mem, owner0, root, lo, addr / PAGE_SIZE)
  {
    hide V, Leaf, R, W, X, U, Target, Forest, PathOf, KernelPte, SpaceOk, Grown, TreeGrowth, ZeroPage, PageHolds,
         UserFlags, UserLeaf;
    hide Spent, Short, RangeTables, Prefixes, Entry, SameLeaves, SameLeavesBut;
    ghost var mem1, owner1 := vm.mem, vm.owner;
    SpaceRoot(vm.mem, vm.owner, lay, root, base, addr);
    VpnIsPath(addr);
    UserReadWrite();
    var rc := vm.MapNewPage(root, addr, ZeroPage(), PTE_U + PTE_R + PTE_W);
    GrowthStep(mem0, owner0, mem1, owner1, vm.mem, vm.owner, root);
    NextPage(owner0, owner1, vm.owner, root, lo, addr / PAGE_SIZE, hi, true);
    ok := rc == Done;
    if ok {
      GrownStep(mem0, owner0, mem1, owner1, vm.mem, vm.owner, root, lo, addr / PAGE_SIZE);
      HeapFlags(vm.mem, root, PathOf(addr / PAGE_SIZE));
      OneMoreHeapPage(mem1, owner1, vm.mem, vm.owner, lay, root, base, addr);
    } else {
      SpaceStays(mem1, owner1, vm.mem, vm.owner, lay, root, base, addr);
      GrownStays(mem0, owner0, mem1, owner1, vm.mem, vm.owner, root, lo, addr / PAGE_SIZE);
    }
  }

  lemma SpaceRoot(mem: Mem, owner: Owners, lay: Layout, r: nat, base: nat, addr: nat)
    requires SpaceOk(mem, owner, lay, r, base, addr) && addr % PAGE_SIZE == 0 && addr < HEAP_MAX
    ensures IsRoot(owner, r) && !UserLeaf(Entry(mem, r, PathOf(addr / PAGE_SIZE)))
  {
    hide PathOf;
    var page := addr / PAGE_SIZE;
    assert PageCeil(addr) == page;
    assert PageOk(lay, page, base, addr, Entry(mem, r, PathOf(page)));
    KernelIsNotUser(lay, page);
  }

  lemma KernelIsNotUser(lay: Layout, page: nat)
    requires page < PAGES
    ensures !UserLeaf(KernelPte(lay, page)) && !U(KernelPte(lay, page))
  {
    hide MakePte;
    if KernelFlags(lay, page) != 0 { PteFields(page * PAGE_SIZE, KernelFlags(lay, page)); }
  }

  lemma HeapFlags(mem: Mem, r: nat, p: Path)
    requires PagePath(p) && PageHolds(mem, r, p, ZeroPage(), PTE_U + PTE_R + PTE_W)
    ensures HeapLeaf(Entry(mem, r, p))
  {
    hide ZeroPage, Entry;
    var w := Entry(mem, r, p);
    LowBits(w / 1024, w % 1024);
    assert WithV(PTE_U + PTE_R + PTE_W) == 23;
  }

  lemma GrownStays(mem: Mem, owner: Owners, mem1: Mem, owner1: Owners, mem2: Mem, owner2: Owners, r: nat, lo: nat,
                   hi: nat)
    requires Forest(mem1, owner1) && IsRoot(owner1, r) && TreeGrowth(mem, owner, mem1, owner1, r)
    requires TreeGrowth(mem1, owner1, mem2, owner2, r)
    requires Grown(mem, mem1, owner, r, lo, hi) && SameLeaves(mem1, mem2, owner1)
    ensures Grown(mem, mem2, owner, r, lo, hi)
  {
    hide V, Leaf, Target, Forest, PageHolds, ZeroPage, PathOf, PageOf;
    forall p {:trigger PathOf(p)} | lo <= p < hi && p < PAGES
      ensures PageHolds(mem2, r, PathOf(p), ZeroPage(), PTE_U + PTE_R + PTE_W)
    {
      HoldsStays(mem1, owner1, mem2, owner2, r, PathOf(p), ZeroPage(), PTE_U + PTE_R + PTE_W);
    }
    forall r', q {:trigger Entry(mem2, r', q)} | IsRoot(owner, r') && PagePath(q) && !(r' == r && InPages(q, lo, hi))
      ensures Entry(mem2, r', q) == Entry(mem, r', q)
    {
      assert IsRoot(owner1, r');
    }
  }

  /** An address space whose translations are all as before is as good as before. */
  lemma SpaceStays(mem: Mem, owner: Owners, mem': Mem, owner': Owners, lay: Layout, r: nat, base: nat, brk: nat)
    requires SpaceOk(mem, owner, lay, r, base, brk) && SameLeaves(mem, mem', owner) && IsRoot(owner', r)
    ensures SpaceOk(mem', owner', lay, r, base, brk)
  {
    hide PathOf, KernelPte, UserLeaf;
    forall p {:trigger PathOf(p)} | 0 <= p < PAGES
      ensures PageOk(lay, p, base, brk, Entry(mem', r, PathOf(p)))
    {
      assert PageOk(lay, p, base, brk, Entry(mem, r, PathOf(p)));
    }
  }

  lemma HeapStart(mem: Mem, owner: Owners, lay: Layout, r: nat, base: nat, brk: nat, addr: nat)
    requires SpaceOk(mem, owner, lay, r, base, brk) && addr == PageCeil(brk) * PAGE_SIZE
    ensures SpaceOk(mem, owner, lay, r, base, addr) && IsRoot(owner, r) && base <= brk
    ensures Grown(mem, mem, owner, r, PageCeil(brk), addr / PAGE_SIZE)
  {
    CeilSame(addr, brk);
    SameCeil(mem, owner, lay, r, base, brk, addr);
  }

  lemma HeapEnd(mem: Mem, owner: Owners, lay: Layout, r: nat, base: nat, addr: nat, brk: nat)
    requires SpaceOk(mem, owner, lay, r, base, addr) && addr == PageCeil(brk) * PAGE_SIZE && base <= brk <= HEAP_MAX
    ensures SpaceOk(mem, owner, lay, r, base, brk)
  {
    CeilSame(addr, brk);
    SameCeil(mem, owner, lay, r, base, addr, brk);
  }

  lemma HeapPagesAreUser(mem: Mem, owner: Owners, lay: Layout, r: nat, base: nat, brk: nat, from: nat)
    requires lay.Valid() && SpaceOk(mem, owner, lay, r, base, brk) && from % PAGE_SIZE == 0 && brk % PAGE_SIZE == 0
    requires base <= from <= brk
    ensures forall page | from / PAGE_SIZE <= page < brk / PAGE_SIZE :: UserOrNothing(Entry(mem, r, PathOf(page)))
    ensures IsRoot(owner, r) && brk <= PAGES * PAGE_SIZE && brk / PAGE_SIZE <= PLIC_PAGE
  {
    hide PathOf, V, R, W, X, U, Leaf;
    assert PageCeil(brk) == brk / PAGE_SIZE;
    forall page | from / PAGE_SIZE <= page < brk / PAGE_SIZE
      ensures UserOrNothing(Entry(mem, r, PathOf(page)))
    {
      assert PageOk(lay, page, base, brk, Entry(mem, r, PathOf(page)));
      assert KernelFlags(lay, page) == 0;
    }
  }

  lemma HeapWasUnmapped(mem: Mem, owner: Owners, lay: Layout, r: nat, base: nat, brk: nat, hi: nat)
    requires lay.Valid() && SpaceOk(mem, owner, lay, r, base, brk) && hi <= PLIC_PAGE
    ensures forall page {:trigger PathOf(page)} | PageCeil(brk) <= page < hi && page < PAGES ::
      Entry(mem, r, PathOf(page)) == 0
  {
    hide PathOf, KernelPte;
  }

  // ---- fork ----

  lemma CopiedAny(mem0: Mem, owner0: Owners, mem: Mem, pr: nat, cr: nat, q: Path)
    requires CopiedUnder(mem0, owner0, mem, pr, cr, Top) && PagePath(q)
    ensures CopiedOrSame(mem0, owner0, mem, pr, cr, q, true)
  {
    hide CopiedOrSame;
    UnderTop(q);
    CopiedHere(mem0, owner0, mem, pr, cr, Top, q);
  }

  lemma CopiedHere(mem0: Mem, owner0: Owners, mem: Mem, pr: nat, cr: nat, p: Path, q: Path)
    requires CopiedUnder(mem0, owner0, mem, pr, cr, p) && PagePath(q)
    ensures CopiedOrSame(mem0, owner0, mem, pr, cr, q, q.Under(p))
  {
    hide CopiedOrSame;
  }

  /**
    What a forked child's tree means: each user page of the parent below 2 GB is a private copy,
    in a frame that was free, with the same bytes and the same ten low bits; everything else is
    the kernel's own mapping.
   */
  ghost predicate ForkedFrom(mem0: Mem, owner0: Owners, mem: Mem, lay: Layout, pr: nat, cr: nat)
  {
    && |mem0| == |owner0| == |mem| == TOTAL_PAGES
    && forall page {:trigger PathOf(page)} | 0 <= page < PAGES ::
         if LowPage(PathOf(page)) && UserLeaf(Entry(mem0, pr, PathOf(page))) then
           CopiedAt(mem0, owner0, mem, pr, cr, PathOf(page))
         else Entry(mem, cr, PathOf(page)) == KernelPte(lay, page)
  }

  /**
    The copy vmm_copy_uvm makes into the kernel-only tree of a new process is a fork of the parent as it was
    before.
   */
  lemma CopyIsFork(mem0: Mem, owner0: Owners, mem1: Mem, owner1: Owners, mem: Mem, lay: Layout, pr: nat, cr: nat)
    requires Forest(mem0, owner0) && IsRoot(owner0, pr)
    requires |mem1| == |owner1| == |mem| == TOTAL_PAGES
    requires forall f {:trigger owner1[f]} {:trigger mem1[f]} | 0 <= f < TOTAL_PAGES && owner0[f] != Free ::
      owner1[f] == owner0[f] && mem1[f] == mem0[f]
    requires KernelOnly(mem1, lay, cr) && CopiedUnder(mem1, owner1, mem, pr, cr, Top)
    ensures ForkedFrom(mem0, owner0, mem, lay, pr, cr)
  {
    hide KernelPte, PathOf, V, R, W, X, U, Leaf, Target, CopiedUnder, LowPage;
    forall page {:trigger PathOf(page)} | 0 <= page < PAGES
      ensures if LowPage(PathOf(page)) && UserLeaf(Entry(mem0, pr, PathOf(page))) then
                CopiedAt(mem0, owner0, mem, pr, cr, PathOf(page))
              else Entry(mem, cr, PathOf(page)) == KernelPte(lay, page)
    {
      var q := PathOf(page);
      assert PagePath(q);
      EntryFrame(mem0, mem1, owner0, pr, q);
      EntryRole(mem0, owner0, pr, q);
      CopiedAny(mem1, owner1, mem, pr, cr, q);
    }
  }

  /** A user page of the parent below 2 GB has a copy with the same permissions; any other page is the kernel's. */
  lemma ForkPage(mem0: Mem, owner0: Owners, mem: Mem, lay: Layout, pr: nat, cr: nat, page: nat)
    requires page < PAGES && ForkedFrom(mem0, owner0, mem, lay, pr, cr)
    ensures var (w, w') := (Entry(mem0, pr, PathOf(page)), Entry(mem, cr, PathOf(page)));
      if LowPage(PathOf(page)) && UserLeaf(w) then
        UserLeaf(w') && R(w') == R(w) && W(w') == W(w) && w' % 1024 == w % 1024
      else w' == KernelPte(lay, page)
  {
    hide KernelPte, PathOf, V, R, W, X, U, Leaf, Target, LowPage;
    var (w, w') := (Entry(mem0, pr, PathOf(page)), Entry(mem, cr, PathOf(page)));
    LowBits(w / 1024, w % 1024);
    LowBits(w' / 1024, w' % 1024);
  }

  /** The child of a fork has an address space with the parent's heap. */
  lemma ForkSpace(mem0: Mem, owner0: Owners, mem: Mem, owner: Owners, lay: Layout, pr: nat, cr: nat, base: nat,
                  brk: nat)
    requires lay.Valid() && SpaceOk(mem0, owner0, lay, pr, base, brk) && IsRoot(owner, cr)
    requires ForkedFrom(mem0, owner0, mem, lay, pr, cr)
    ensures SpaceOk(mem, owner, lay, cr, base, brk)
  {
    hide PathOf, KernelPte, ForkedFrom, PageOk;
    forall page {:trigger PathOf(page)} | 0 <= page < PAGES
      ensures PageOk(lay, page, base, brk, Entry(mem, cr, PathOf(page)))
    {
      assert PageOk(lay, page, base, brk, Entry(mem0, pr, PathOf(page)));
      ForkPage(mem0, owner0, mem, lay, pr, cr, page);
      ForkPageOk(lay, page, base, brk, Entry(mem0, pr, PathOf(page)), Entry(mem, cr, PathOf(page)));
    }
  }

  lemma ForkPageOk(lay: Layout, page: nat, base: nat, brk: nat, w: Word, w': Word)
    requires lay.Valid() && page < PAGES && PageOk(lay, page, base, brk, w) && brk <= HEAP_MAX && base <= IMAGE_LIMIT
    requires if LowPage(PathOf(page)) && UserLeaf(w) then UserLeaf(w') && R(w') == R(w) && W(w') == W(w)
             else w' == KernelPte(lay, page)
    ensures PageOk(lay, page, base, brk, w')
  {
    hide KernelPte, PathOf, V, R, W, X, U, Leaf, LowPage;
    KernelIsNotUser(lay, page);
    KernelPteZero(lay, page);
    ZeroIsInvalid();
    LowPages(page);
  }

  lemma LowPages(page: nat)
    requires page < PAGES
    ensures LowPage(PathOf(page)) <==> page < 0x8_0000
  {
    var p := PathOf(page);
    assert FirstIndex(p.up.up) == page / 0x4_0000;
    assert FirstIndex(p.up) == FirstIndex(p.up.up);
  }

  /** All user memory of an address space lies below 2 GB, where fork copies. */
  lemma UserPagesAreLow(mem: Mem, owner: Owners, lay: Layout, r: nat, base: nat, brk: nat, page: nat)
    requires SpaceOk(mem, owner, lay, r, base, brk) && page < PAGES && UserLeaf(Entry(mem, r, PathOf(page)))
    ensures LowPage(PathOf(page))
  {
    hide PathOf, KernelPte, V, R, W, X, U, Leaf, LowPage;
    assert PageOk(lay, page, base, brk, Entry(mem, r, PathOf(page)));
    KernelIsNotUser(lay, page);
    ZeroIsInvalid();
    LowPages(page);
  }

  /**
    Fork preserves meaning: at every user address of the parent the child reads the byte the parent
    read before, from a frame of its own, and the parent still reads it.
   */
  lemma ForkedByte(mem0: Mem, owner0: Owners, mem: Mem, lay: Layout, pr: nat, cr: nat, base: nat, brk: nat, va: nat)
    requires Forest(mem0, owner0) && SpaceOk(mem0, owner0, lay, pr, base, brk)
    requires ForkedFrom(mem0, owner0, mem, lay, pr, cr)
    requires forall f {:trigger mem[f]} | 0 <= f < TOTAL_PAGES && owner0[f] != Free :: mem[f] == mem0[f]
    requires UserLeaf(Entry(mem0, pr, VpnPath(va)))
    ensures UserLeaf(Entry(mem, cr, VpnPath(va))) && LoadByte(mem, cr, va) == LoadByte(mem0, pr, va)
    ensures LoadByte(mem, pr, va) == LoadByte(mem0, pr, va)
    ensures Target(Entry(mem, cr, VpnPath(va))) != Target(Entry(mem, pr, VpnPath(va)))
  {
    hide V, R, W, X, U, Leaf, Vpn, VpnPath, PathOf, KernelPte, LowPage, PageOk;
    var q := VpnPath(va);
    SplitIsInjective(q);
    UserPagesAreLow(mem0, owner0, lay, pr, base, brk, PageOf(q));
    assert PathOf(PageOf(q)) == q;
    assert CopiedAt(mem0, owner0, mem, pr, cr, q);
    EntryFrame(mem0, mem, owner0, pr, q);
    EntryRole(mem0, owner0, pr, q);
  }

  // ---- exec ----

  /** A loaded program is an address space with an empty heap just past its image. */
  lemma ExecSpace(mem: Mem, owner: Owners, lay: Layout, r: nat, img: seq<byte>, at: nat, res: Loaded, lost: int)
    requires lay.Valid() && IsRoot(owner, r) && GoodImage(img, at)
    requires res.Running? && ProgramIn(mem, lay, r, img, at, res, lost)
    ensures SpaceOk(mem, owner, lay, r, res.heapBreak, res.heapBreak)
  {
    hide PathOf, PhdrAt, PhdrCount, KernelPte, V, R, W, X, U, Leaf, MaxEnd, Magic, EntryPoint, ZeroPage;
    var n := PhdrCount(img, at);
    MaxEndIsLow(img, at, n);
    CeilOfMultiple(MaxEnd(img, at, n));
    forall page {:trigger PathOf(page)} | 0 <= page < PAGES
      ensures PageOk(lay, page, res.heapBreak, res.heapBreak, Entry(mem, r, PathOf(page)))
    {
      if page == STACK_PAGE {
        assert KernelFlags(lay, page) == 0;
        assert UserOrNothing(Entry(mem, r, PathOf(page))) by { ZeroIsInvalid(); }
      } else if Covered(img, at, n, page) {
        CoveredIsLow(img, at, n, page);
        CoveredPage(mem, lay, r, img, at, page);
        assert KernelFlags(lay, page) == 0;
      } else {
        KernelPteZero(lay, page);
        ZeroIsInvalid();
      }
    }
  }

  lemma KernelPteZero(lay: Layout, page: nat)
    requires page < PAGES
    ensures KernelFlags(lay, page) == 0 ==> KernelPte(lay, page) == 0
  {
    hide MakePte;
  }

  lemma CeilOfMultiple(end: nat)
    requires end <= IMAGE_LIMIT
    ensures var brk := PageCeil(end) * PAGE_SIZE;
      brk % PAGE_SIZE == 0 && brk <= IMAGE_LIMIT && brk / PAGE_SIZE == PageCeil(end) == PageCeil(brk)
  {
  }

  /** A page of a segment is user memory below the break. */
  lemma CoveredPage(mem: Mem, lay: Layout, r: nat, img: seq<byte>, at: nat, page: nat)
    requires GoodImage(img, at) && ImageIn(mem, lay, r, img, at) && page < PAGES
    requires Covered(img, at, PhdrCount(img, at), page)
    ensures UserLeaf(Entry(mem, r, PathOf(page))) && page < PageCeil(MaxEnd(img, at, PhdrCount(img, at)))
  {
    hide PathOf, PhdrAt, PhdrCount, SegPage, SegLoaded, UserLeaf, V, R, W, X, U, Leaf, Entry, MaxEnd, GoodImage,
         PageCeil, KernelPte;
    var i: nat :| i < PhdrCount(img, at) && PhdrAt(img, at, i).Load()
      && PhdrAt(img, at, i).FirstPage() <= page < PhdrAt(img, at, i).EndPage();
    var ph := PhdrAt(img, at, i);
    SegLoadedPage(mem, r, img, at, ph, ph.EndPage() - ph.FirstPage(), page - ph.FirstPage());
    MaxEndCovers(img, at, PhdrCount(img, at), i);
    CeilIsMonotone(ph.vaddr + ph.memsz, MaxEnd(img, at, PhdrCount(img, at)));
  }

  lemma CeilIsMonotone(a: nat, b: nat)
    requires a <= b
    ensures PageCeil(a) <= PageCeil(b)
  {
  }

  // ---- the kernel stack ----

  /**
    alloc_proc maps the kernel stack to itself although vmm_map_kernel already did: the entry it
    writes is the one that is there, and so it does not matter that its result is ignored.
   */
  method MapKernelStack(vm: AddressSpaces, lay: Layout, root: nat, k: nat)
    requires vm.Valid() && lay.Valid() && IsRoot(vm.owner, root) && KernelOnly(vm.mem, lay, root)
    requires k < TOTAL_PAGES && lay.end <= FrameAddr(k)
    modifies vm`mem, vm`owner, vm.pmm.bitmap
    ensures vm.Valid() && TreeGrowth(old(vm.mem), old(vm.owner), vm.mem, vm.owner, root)
    ensures KernelOnly(vm.mem, lay, root)
    ensures |FreeFrames(vm.owner)| == |FreeFrames(old(vm.owner))|
    ensures Tables(vm.owner, root) == Tables(old(vm.owner), root)
  {
    hide V, Leaf, R, W, X, U, Target, Forest, MakePte, PathOf, LeafOk, FreeFrames, Tables, Prefixes;
    var addr := FrameAddr(k);
    StackPte(lay, k);
    PteIsNotZero(addr, PTE_R + PTE_W);
    VpnIsPath(addr);
    MappedHasTables(vm.mem, vm.owner, root, PathOf(addr / PAGE_SIZE));
    assert Prefixes(PathOf(addr / PAGE_SIZE)) - Tables(vm.owner, root) == {};
    IdentityLeaf(vm.mem, vm.owner, addr, PTE_R + PTE_W);
    KernelIsNotUser(lay, addr / PAGE_SIZE);
    var rc := vm.MapPage(root, addr, addr, PTE_R + PTE_W);
    forall page {:trigger PathOf(page)} | 0 <= page < PAGES
      ensures Entry(vm.mem, root, PathOf(page)) == KernelPte(lay, page)
    {
      assert page != addr / PAGE_SIZE ==> PathOf(page) != PathOf(addr / PAGE_SIZE);
    }
  }

  lemma PteIsNotZero(pa: Word, flags: nat)
    requires flags < 1024
    ensures MakePte(pa, flags) != 0
  {
    hide MakePte;
    PteFields(pa, flags);
  }

  lemma StackPte(lay: Layout, k: nat)
    requires lay.Valid() && k < TOTAL_PAGES && lay.end <= FrameAddr(k)
    ensures var addr := FrameAddr(k);
      && addr % PAGE_SIZE == 0 && addr < PAGES * PAGE_SIZE
      && KernelPte(lay, addr / PAGE_SIZE) == MakePte(addr, PTE_R + PTE_W)
  {
    hide MakePte;
    var addr := FrameAddr(k);
    assert addr / PAGE_SIZE * PAGE_SIZE == addr;
  }
}
