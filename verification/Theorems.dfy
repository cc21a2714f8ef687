/** What the kernel's invariant and the contracts of its steps mean for the system as a whole. */
module Theorems {
  import opened Sv39
  import opened Platform
  import opened PageTrees
  import opened Budget
  import opened Vmm
  import opened Elf
  import opened Mmu
  import opened Spaces
  import opened Procs
  import opened Invariants
  import opened Steps
  import opened Console

  // ---- the exact ledger ----

  ghost function UsedFrames(owner: Owners): set<nat> { set f: nat | f < |owner| && owner[f] != Free }
  ghost function ReservedFrames(owner: Owners): set<nat> { set f: nat | f < |owner| && owner[f] == Reserved }
  ghost function LostFrames(owner: Owners): set<nat> { set f: nat | f < |owner| && owner[f] == Lost }
  ghost function LeakedFrames(owner: Owners, leaked: set<nat>): set<nat> {
    set f: nat | f < |owner| && owner[f].Node? && owner[f].root in leaked
  }

  /** The frames of slot `s`: its tree, with tables and user pages, and its kernel stack. */
  ghost function SlotFrames(owner: Owners, t: Table, s: nat): set<nat>
    requires s < |t| && (t[s].Live() ==> t[s].kstack >= 0)
  {
    if t[s].Live() then TreeFrames(owner, t[s].root) + {t[s].kstack} else {}
  }

  ghost predicate StacksOk(t: Table) {
    forall s {:trigger t[s].kstack} | 0 <= s < |t| && t[s].Live() :: t[s].kstack >= 0
  }

  ghost function SlotsFrames(owner: Owners, t: Table, n: nat): set<nat>
    requires n <= |t| && StacksOk(t)
  {
    if n == 0 then {} else SlotsFrames(owner, t, n - 1) + SlotFrames(owner, t, n - 1)
  }

  ghost function SlotsTotal(owner: Owners, t: Table, n: nat): nat
    requires n <= |t| && StacksOk(t)
  {
    if n == 0 then 0 else SlotsTotal(owner, t, n - 1) + |SlotFrames(owner, t, n - 1)|
  }

  lemma {:induction false} InSlots(owner: Owners, t: Table, n: nat, f: nat)
    requires n <= |t| && StacksOk(t)
    ensures f in SlotsFrames(owner, t, n) <==>
      exists s: nat {:trigger SlotFrames(owner, t, s)} :: s < n && f in SlotFrames(owner, t, s)
  {
    if n > 0 {
      InSlots(owner, t, n - 1, f);
      if f in SlotFrames(owner, t, n - 1) { assert n - 1 < n; }
    }
  }

  lemma SlotsApart(mem: Mem, owner: Owners, lay: Layout, t: Table, bases: seq<nat>, i: nat, j: nat)
    requires SpacesOk(mem, owner, lay, t, bases) && StacksOk(t) && i < j < |t|
    ensures SlotFrames(owner, t, i) !! SlotFrames(owner, t, j)
  {
    hide SpaceOk, SlotOk;
    if t[i].Live() && t[j].Live() {
      LiveMemory(mem, owner, lay, t, bases, i);
      LiveMemory(mem, owner, lay, t, bases, j);
      assert t[i].root != t[j].root;
    }
  }

  lemma {:induction false} CountSlots(mem: Mem, owner: Owners, lay: Layout, t: Table, bases: seq<nat>, n: nat)
    requires SpacesOk(mem, owner, lay, t, bases) && StacksOk(t) && n <= |t|
    ensures |SlotsFrames(owner, t, n)| == SlotsTotal(owner, t, n)
  {
    hide SpacesOk, SlotFrames;
    if n > 0 {
      CountSlots(mem, owner, lay, t, bases, n - 1);
      var before, last := SlotsFrames(owner, t, n - 1), SlotFrames(owner, t, n - 1);
      forall f | f in before ensures f !in last {
        InSlots(owner, t, n - 1, f);
        var s: nat :| s < n - 1 && f in SlotFrames(owner, t, s);
        SlotsApart(mem, owner, lay, t, bases, s, n - 1);
      }
      assert before !! last;
    }
  }

  /**
    The frames in use are exactly the protected ones, the boot tree, each live process's tree and
    kernel stack, and what the two out-of-memory paths dropped: the trees that alloc_proc abandoned
    and the stack pages that load_elf lost. No two of these overlap.
   */
  lemma LedgerIsExact(st: State)
    requires st.Good() && StacksOk(st.t)
    ensures UsedFrames(st.owner) ==
      ReservedFrames(st.owner) + TreeFrames(st.owner, st.boot) + SlotsFrames(st.owner, st.t, MAX_PROCS)
      + LeakedFrames(st.owner, st.leaked) + LostFrames(st.owner)
    ensures |UsedFrames(st.owner)| ==
      |ReservedFrames(st.owner)| + |TreeFrames(st.owner, st.boot)| + SlotsTotal(st.owner, st.t, MAX_PROCS)
      + |LeakedFrames(st.owner, st.leaked)| + |LostFrames(st.owner)|
    ensures forall f: nat {:trigger f in ReservedFrames(st.owner)} | f < |st.owner| ::
      f in ReservedFrames(st.owner) <==> f < Protected(st.lay)
  {
    var (mem, owner, lay, t, bases, boot, leaked) := (st.mem, st.owner, st.lay, st.t, st.bases, st.boot, st.leaked);
    hide SpaceOk, SlotOk, SleepersOk, PidsOk, SpacesOk, LedgerOk, SlotsFrames, SlotFrames;
    Length(mem, owner, lay, t, bases);
    var slots := SlotsFrames(owner, t, MAX_PROCS);
    forall f: nat
      ensures f in slots <==> f < |owner| && ASlots(owner[f], boot, leaked)
    {
      InSlots(owner, t, MAX_PROCS, f);
      WhoseFrame(mem, owner, lay, t, bases, boot, leaked, f);
    }
    ReservedIsLow(owner, lay, t, boot, leaked, 0);
    FiveParts(owner, boot, leaked, slots);
    CountSlots(mem, owner, lay, t, bases, MAX_PROCS);
    forall f: nat {:trigger f in ReservedFrames(owner)} | f < |owner|
      ensures f in ReservedFrames(owner) <==> f < Protected(lay)
    {
      ReservedIsLow(owner, lay, t, boot, leaked, f);
    }
  }

  lemma Length(mem: Mem, owner: Owners, lay: Layout, t: Table, bases: seq<nat>)
    requires SpacesOk(mem, owner, lay, t, bases)
    ensures |t| == MAX_PROCS
  {
  }

  /** The role is a process's: none of the kernel's own, and nothing dropped. */
  ghost predicate ASlots(o: Owner, boot: nat, leaked: set<nat>) {
    o != Free && o != Reserved && o != Lost && !(o.Node? && (o.root == boot || o.root in leaked))
  }

  lemma ReservedIsLow(owner: Owners, lay: Layout, t: Table, boot: nat, leaked: set<nat>, f: nat)
    requires LedgerOk(owner, lay, t, boot, leaked)
    ensures boot !in leaked && (f < |owner| ==> (owner[f] == Reserved <==> f < Protected(lay)))
  {
    if f < |owner| { assert RoleOk(owner[f], f, lay, t, boot, leaked); }
  }

  lemma FiveParts(owner: Owners, boot: nat, leaked: set<nat>, slots: set<nat>)
    requires boot !in leaked && forall f: nat :: f in slots <==> f < |owner| && ASlots(owner[f], boot, leaked)
    ensures var (res, tree, leak, lost) := (ReservedFrames(owner), TreeFrames(owner, boot), LeakedFrames(owner, leaked),
                                            LostFrames(owner));
      && UsedFrames(owner) == res + tree + slots + leak + lost
      && |UsedFrames(owner)| == |res| + |tree| + |slots| + |leak| + |lost|
  {
    var (res, tree, leak, lost) := (ReservedFrames(owner), TreeFrames(owner, boot), LeakedFrames(owner, leaked),
                                    LostFrames(owner));
    OneOfFive(owner, boot, leaked, slots);
    assert res !! tree && res !! slots && res !! leak && res !! lost;
    assert tree !! slots && tree !! leak && tree !! lost && slots !! leak && slots !! lost && leak !! lost;
    hide ReservedFrames, TreeFrames, LeakedFrames, LostFrames, UsedFrames, ASlots;
    FiveSizes(res, tree, slots, leak, lost);
  }

  lemma OneOfFive(owner: Owners, boot: nat, leaked: set<nat>, slots: set<nat>)
    requires forall f: nat :: f in slots <==> f < |owner| && ASlots(owner[f], boot, leaked)
    ensures UsedFrames(owner) ==
      ReservedFrames(owner) + TreeFrames(owner, boot) + slots + LeakedFrames(owner, leaked) + LostFrames(owner)
  {
    var all := ReservedFrames(owner) + TreeFrames(owner, boot) + slots + LeakedFrames(owner, leaked) +
      LostFrames(owner);
    forall f: nat {:trigger f in all} ensures f in UsedFrames(owner) <==> f in all {
      if f < |owner| && owner[f] != Free {
        assert ASlots(owner[f], boot, leaked) || f in ReservedFrames(owner) || f in TreeFrames(owner, boot) ||
          f in LeakedFrames(owner, leaked) || f in LostFrames(owner);
      }
    }
  }

  lemma FiveSizes(a: set<nat>, b: set<nat>, c: set<nat>, d: set<nat>, e: set<nat>)
    requires a !! b !! c !! d !! e
    ensures |a + b + c + d + e| == |a| + |b| + |c| + |d| + |e|
  {
    UnionSize(a, b);
    UnionSize(a + b, c);
    UnionSize(a + b + c, d);
    UnionSize(a + b + c + d, e);
  }

  lemma WhoseFrame(mem: Mem, owner: Owners, lay: Layout, t: Table, bases: seq<nat>, boot: nat, leaked: set<nat>, f: nat)
    requires SpacesOk(mem, owner, lay, t, bases) && LedgerOk(owner, lay, t, boot, leaked) && StacksOk(t)
    ensures (exists s: nat {:trigger SlotFrames(owner, t, s)} :: s < MAX_PROCS && f in SlotFrames(owner, t, s)) <==>
      f < |owner| && ASlots(owner[f], boot, leaked)
  {
    hide SpaceOk, SlotOk;
    if f < |owner| { assert RoleOk(owner[f], f, lay, t, boot, leaked); }
    if s: nat :| s < MAX_PROCS && f in SlotFrames(owner, t, s) {
      LiveMemory(mem, owner, lay, t, bases, s);
      assert t[s].root != boot && t[s].root !in leaked;
    }
    if f >= |owner| {
    } else if owner[f].Stack? {
      assert f in SlotFrames(owner, t, owner[f].slot);
    } else if owner[f].Node? && owner[f].root != boot && owner[f].root !in leaked {
      var s: nat :| LiveRoot(t, s, owner[f].root);
      assert f in SlotFrames(owner, t, s);
    }
  }

  // ---- no deadlock ----

  /**
    When nothing can run and something is blocked, somebody waits for the console and there is
    room for a line: one Enter commits it and makes a reader ready exactly when it is not in the
    middle of an escape sequence, which would swallow it.
   */
  lemma EnterEndsTheWait(t: Table, nextPid: nat, e: Editor, blocked: nat, enter: byte) returns (reader: nat)
    requires PidsOk(t, nextPid) && SleepersOk(t, NoInput(e)) && NothingRuns(t) && e.Ok()
    requires blocked < MAX_PROCS && t[blocked].state == BLOCKED && (enter == NL || enter == CR)
    ensures e.Receive(enter).committed == if e.esc == Normal then e.committed + e.line + [NL] else e.committed
    ensures reader < MAX_PROCS && t[reader].state == BLOCKED && Woken(t, UartRx)[reader].state == READY
  {
    reader := SomeoneWaitsForInput(t, nextPid, NoInput(e), blocked);
    if e.esc == Normal { EnterCommits(e, enter); }
  }

  /** From any such state, escape sequence or not, a tilde and an Enter commit a line, and the reader is ready. */
  lemma TildeEnterEndsTheWait(t: Table, nextPid: nat, e: Editor, blocked: nat) returns (reader: nat)
    requires PidsOk(t, nextPid) && SleepersOk(t, NoInput(e)) && NothingRuns(t) && e.Ok()
    requires blocked < MAX_PROCS && t[blocked].state == BLOCKED
    ensures var e' := Feed(e, [TILDE, NL]);
      e'.committed == e.committed + e.Receive(TILDE).line + [NL] && e'.taken == |e.committed|
    ensures reader < MAX_PROCS && t[reader].state == BLOCKED && Woken(t, UartRx)[reader].state == READY
  {
    reader := SomeoneWaitsForInput(t, nextPid, NoInput(e), blocked);
    TildeThenEnter(e);
  }

  // ---- address spaces as the hardware sees them ----

  /**
    Kernel RAM and devices translate to themselves in every live address space, and never for the program:
    satp may be switched in mid-kernel.
   */
  lemma KernelMappedAlike(mem: Mem, owner: Owners, lay: Layout, r: nat, base: nat, brk: nat, va: nat, acc: Access)
    requires Forest(mem, owner) && SpaceOk(mem, owner, lay, r, base, brk) && va < PAGES * PAGE_SIZE
    requires KernelFlags(lay, va / PAGE_SIZE) != 0
    ensures HwTranslate(mem, r, va, acc, true) == -1
    ensures HwTranslate(mem, r, va, acc, false) ==
      if Canonical(va) && Permits(KernelFlags(lay, va / PAGE_SIZE), acc, false) then va else -1
    ensures lay.Valid() ==> Canonical(va)
  {
    hide V, R, W, X, U, PathOf, VpnPath, HwTranslate, MakePte, KernelFlags;
    var page := va / PAGE_SIZE;
    VpnIsPath(va);
    if lay.Valid() { KernelIsLow(lay, page); }
    WalkAgrees(mem, owner, r, va, acc, true);
    WalkAgrees(mem, owner, r, va, acc, false);
    assert PageOk(lay, page, base, brk, Entry(mem, r, PathOf(page)));
    PteFields(page * PAGE_SIZE, KernelFlags(lay, page));
    KernelFlagsShape(lay, page);
    assert va == page * PAGE_SIZE + va % PAGE_SIZE;
  }

  /** Kernel and devices are in the low half of the address space. */
  lemma KernelIsLow(lay: Layout, page: nat)
    requires lay.Valid() && KernelFlags(lay, page) != 0
    ensures (page + 1) * PAGE_SIZE <= LOW_HALF
  {
  }

  lemma KernelFlagsShape(lay: Layout, page: nat)
    ensures KernelFlags(lay, page) != 0 ==> R(KernelFlags(lay, page)) && !U(KernelFlags(lay, page))
    ensures !(W(KernelFlags(lay, page)) && X(KernelFlags(lay, page)))
  {
  }

  /** The entry of a page between heap base and stack: user memory below the break, nothing for the program above it. */
  lemma HeapEntry(lay: Layout, page: nat, base: nat, brk: nat, w: Word)
    requires lay.Valid() && base <= IMAGE_LIMIT && PageCeil(brk) <= PLIC_PAGE && base / PAGE_SIZE <= page < STACK_PAGE
    requires PageOk(lay, page, base, brk, w)
    ensures if page < PageCeil(brk) then HeapLeaf(w) else !U(w)
  {
    hide V, Leaf, R, W, X, U, MakePte, KernelPte;
    KernelIsNotUser(lay, page);
    ZeroIsInvalid();
    if page < PageCeil(brk) { assert KernelFlags(lay, page) == 0; }
  }

  /**
    The heap from its base to the break can be read and written; above the break up to the stack, guard page
    included, nothing can.
   */
  lemma HeapAccess(mem: Mem, owner: Owners, lay: Layout, r: nat, base: nat, brk: nat, va: nat, acc: Access)
    requires lay.Valid() && Forest(mem, owner) && SpaceOk(mem, owner, lay, r, base, brk)
    requires base <= va < STACK_TOP - PAGE_SIZE
    ensures va < brk && !acc.Fetch? ==> HwTranslate(mem, r, va, acc, true) != -1
    ensures PageCeil(brk) * PAGE_SIZE <= va ==> HwTranslate(mem, r, va, acc, true) == -1
    ensures va < brk ==> va < PLIC_BASE
  {
    hide V, R, W, X, U, PathOf, VpnPath, HwTranslate, PageOk, Entry;
    var page := va / PAGE_SIZE;
    VpnIsPath(va);
    WalkAgrees(mem, owner, r, va, acc, true);
    assert PageOk(lay, page, base, brk, Entry(mem, r, PathOf(page)));
    HeapEntry(lay, page, base, brk, Entry(mem, r, PathOf(page)));
  }

  /** What a program can touch: its own pages, in frames above the kernel's, never both to write and to execute. */
  lemma UserPagesAreOwn(mem: Mem, owner: Owners, lay: Layout, t: Table, boot: nat, leaked: set<nat>, r: nat, va: nat,
                        acc: Access)
    requires Forest(mem, owner) && IsRoot(owner, r) && LedgerOk(owner, lay, t, boot, leaked)
    requires HwTranslate(mem, r, va, acc, true) != -1
    ensures var w := Entry(mem, r, VpnPath(va));
      && InRam(Target(w)) && owner[Target(w)] == Node(r, VpnPath(va)) && Target(w) >= Protected(lay)
      && !(W(w) && X(w))
      && HwTranslate(mem, r, va, acc, true) == (PHYSICAL_RAM_START / PAGE_SIZE + Target(w)) * PAGE_SIZE + va % PAGE_SIZE
  {
    hide V, R, W, X, U, VpnPath, HwTranslate;
    WalkAgrees(mem, owner, r, va, acc, true);
    EntryRole(mem, owner, r, VpnPath(va));
  }
}
