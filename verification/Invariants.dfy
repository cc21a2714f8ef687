/** What holds of the kernel's whole state at every return to user mode and at every turn of the idle loop. */
module Invariants {
  import opened Sv39
  import opened Platform
  import opened PageTrees
  import opened Vmm
  import opened Elf
  import opened Spaces
  import opened Procs

  // ---- memory of the processes ----

  /** The memory of a live slot: its address space, its kernel stack, and the bounds and files its PCB records. */
  ghost predicate SlotOk(mem: Mem, owner: Owners, lay: Layout, p: Proc, s: nat, base: nat) {
    p.Live() ==>
      && 0 <= p.root < TOTAL_PAGES && 0 <= p.kstack < |owner| == TOTAL_PAGES && owner[p.kstack] == Stack(s)
      && SpaceOk(mem, owner, lay, p.root, base, p.brk) && p.max == HEAP_MAX
      && p.tf.kernelSp == FrameAddr(p.kstack) + PAGE_SIZE
      && |p.files| == FD_MAX && forall fd | 0 <= fd < FD_MAX :: p.files[fd].offset <= p.files[fd].size
  }

  ghost predicate RootsDistinct(t: Table) {
    forall i, j {:trigger t[i].root, t[j].root} | 0 <= i < j < |t| && t[i].Live() && t[j].Live() ::
      t[i].root != t[j].root
  }

  ghost predicate SpacesOk(mem: Mem, owner: Owners, lay: Layout, t: Table, bases: seq<nat>) {
    && |t| == |bases| == MAX_PROCS && RootsDistinct(t)
    && forall s {:trigger SlotOk(mem, owner, lay, t[s], s, bases[s])} | 0 <= s < MAX_PROCS ::
         SlotOk(mem, owner, lay, t[s], s, bases[s])
  }

  // ---- the frame ledger ----

  predicate LiveRoot(t: Table, s: nat, r: nat) { s < |t| && t[s].Live() && t[s].root == r }

  /** The number of protected frames at the bottom of RAM. */
  function Protected(lay: Layout): int { (lay.end - PHYSICAL_RAM_START) / PAGE_SIZE + 1 }

  /** The role of frame `f` is accounted for. */
  ghost predicate RoleOk(o: Owner, f: nat, lay: Layout, t: Table, boot: nat, leaked: set<nat>) {
    match o
    case Free => true
    case Reserved => f < Protected(lay)
    case InFlight => false
    case Stack(s) => s < |t| && t[s].Live() && t[s].kstack == f
    case Node(r, _) => r == boot || r in leaked || exists s: nat {:trigger LiveRoot(t, s, r)} :: LiveRoot(t, s, r)
    case Lost => true
  }

  /**
    Every frame in use is a protected frame, a frame of the boot tree, of the tree or the kernel
    stack of a live process, or one that an out-of-memory path dropped; and of these only one.
   */
  ghost predicate LedgerOk(owner: Owners, lay: Layout, t: Table, boot: nat, leaked: set<nat>) {
    && |owner| == TOTAL_PAGES && IsRoot(owner, boot) && (forall r | r in leaked :: IsRoot(owner, r)) && boot !in leaked
    && (forall f {:trigger owner[f]} | 0 <= f < TOTAL_PAGES :: RoleOk(owner[f], f, lay, t, boot, leaked))
    && (forall f | 0 <= f < Protected(lay) && f < TOTAL_PAGES :: owner[f] == Reserved)
    && (forall s {:trigger t[s].root} | 0 <= s < |t| && t[s].Live() :: t[s].root != boot && t[s].root !in leaked)
  }

  // ---- moving from one memory to another ----

  /** Everything that is not free, not in flight, not in tree `r` and not the kernel stack of slot `s`. */
  predicate Foreign(o: Owner, r: int, s: nat) {
    !o.Free? && !o.InFlight? && !(o.Node? && o.root == r) && o != Stack(s)
  }

  ghost predicate Touches(mem: Mem, owner: Owners, mem': Mem, owner': Owners, r: int, s: nat) {
    && |mem| == |mem'| == |owner| == |owner'| == TOTAL_PAGES
    && forall f {:trigger owner'[f]} {:trigger mem'[f]} | 0 <= f < TOTAL_PAGES && Foreign(owner[f], r, s) ::
         owner'[f] == owner[f] && mem'[f] == mem[f]
  }

  lemma GrowthTouches(mem: Mem, owner: Owners, mem': Mem, owner': Owners, r: nat, s: nat)
    requires TreeGrowth(mem, owner, mem', owner', r)
    ensures Touches(mem, owner, mem', owner', r, s)
  {
  }

  /** A slot whose tree and stack an operation does not touch is as it was. */
  lemma SlotStays(mem: Mem, owner: Owners, mem': Mem, owner': Owners, lay: Layout, p: Proc, i: nat, base: nat, r: int,
                  s: nat)
    requires Forest(mem, owner) && SlotOk(mem, owner, lay, p, i, base) && Touches(mem, owner, mem', owner', r, s)
    requires p.Live() ==> p.root != r && i != s
    ensures SlotOk(mem', owner', lay, p, i, base)
  {
    if p.Live() {
      forall page {:trigger PathOf(page)} | 0 <= page < PAGES
        ensures PageOk(lay, page, base, p.brk, Entry(mem', p.root, PathOf(page)))
      {
        hide V, Leaf, U, R, W, PathOf, KernelPte, PageOk;
        EntryFrame(mem, mem', owner, p.root, PathOf(page));
        assert PageOk(lay, page, base, p.brk, Entry(mem, p.root, PathOf(page)));
      }
    }
  }

  /** Slot `s` renewed, every other slot untouched. */
  lemma SpacesUpdate(mem: Mem, owner: Owners, mem': Mem, owner': Owners, lay: Layout, t: Table, bases: seq<nat>,
                     r: int, s: nat, p': Proc, base': nat)
    requires Forest(mem, owner) && SpacesOk(mem, owner, lay, t, bases) && Touches(mem, owner, mem', owner', r, s)
    requires s < MAX_PROCS && (t[s].Live() ==> t[s].root == r) && (!t[s].Live() ==> IsFresh(owner, r) || r == -1)
    requires SlotOk(mem', owner', lay, p', s, base')
    requires p'.Live() ==> p'.root == r || IsFresh(owner, p'.root)
    ensures SpacesOk(mem', owner', lay, t[s := p'], bases[s := base'])
  {
    hide V, Leaf, SpaceOk;
    var t', bases' := t[s := p'], bases[s := base'];
    forall i {:trigger SlotOk(mem', owner', lay, t'[i], i, bases'[i])} | 0 <= i < MAX_PROCS
      ensures SlotOk(mem', owner', lay, t'[i], i, bases'[i])
    {
      if i != s {
        assert SlotOk(mem, owner, lay, t[i], i, bases[i]);
        if t[i].Live() { RootOfSlot(mem, owner, lay, t[i], i, bases[i]); }
        SlotStays(mem, owner, mem', owner', lay, t[i], i, bases[i], r, s);
      }
    }
    forall i, j {:trigger t'[i].root, t'[j].root} | 0 <= i < j < |t'| && t'[i].Live() && t'[j].Live()
      ensures t'[i].root != t'[j].root
    {
      if i != s { assert SlotOk(mem, owner, lay, t[i], i, bases[i]); RootOfSlot(mem, owner, lay, t[i], i, bases[i]); }
      if j != s { assert SlotOk(mem, owner, lay, t[j], j, bases[j]); RootOfSlot(mem, owner, lay, t[j], j, bases[j]); }
    }
  }

  predicate IsFresh(owner: Owners, r: int) { 0 <= r < |owner| && owner[r] == Free }

  lemma RootOfSlot(mem: Mem, owner: Owners, lay: Layout, p: Proc, s: nat, base: nat)
    requires SlotOk(mem, owner, lay, p, s, base) && p.Live()
    ensures 0 <= p.root < |owner| == TOTAL_PAGES && IsRoot(owner, p.root)
  {
  }

  /** What a renewed slot's own frames may have become. */
  predicate OwnRoleOk(o: Owner, f: nat, s: nat, p': Proc, leaked: set<nat>) {
    match o
    case Free => true
    case Lost => true
    case Stack(s') => s' == s && p'.Live() && p'.kstack == f
    case Node(r', _) => (p'.Live() && r' == p'.root) || r' in leaked
    case _ => false
  }

  /** The ledger after slot `s` was renewed: its own frames re-accounted, all others as before. */
  lemma LedgerUpdate(owner: Owners, owner': Owners, lay: Layout, t: Table, boot: nat, leaked: set<nat>,
                     leaked': set<nat>, r: int, s: nat, p': Proc)
    requires LedgerOk(owner, lay, t, boot, leaked) && |t| == MAX_PROCS && s < MAX_PROCS && |owner'| == TOTAL_PAGES
    requires t[s].Live() ==> t[s].root == r
    requires r != boot && r !in leaked
    requires forall f {:trigger owner'[f]} | 0 <= f < TOTAL_PAGES ::
      if Foreign(owner[f], r, s) then owner'[f] == owner[f] else OwnRoleOk(owner'[f], f, s, p', leaked')
    requires leaked <= leaked' && boot !in leaked' && forall q | q in leaked' :: IsRoot(owner', q)
    requires p'.Live() ==> p'.root != boot && p'.root !in leaked'
    requires forall i {:trigger t[i].root} | 0 <= i < |t| && i != s && t[i].Live() :: t[i].root !in leaked'
    ensures LedgerOk(owner', lay, t[s := p'], boot, leaked')
  {
    var t' := t[s := p'];
    forall f {:trigger owner'[f]} | 0 <= f < TOTAL_PAGES
      ensures RoleOk(owner'[f], f, lay, t', boot, leaked')
    {
      assert RoleOk(owner[f], f, lay, t, boot, leaked);
      if Foreign(owner[f], r, s) {
        if owner[f].Node? && owner[f].root != boot && owner[f].root !in leaked {
          var i: nat :| LiveRoot(t, i, owner[f].root);
          assert LiveRoot(t', i, owner[f].root);
        }
      } else if owner'[f].Node? && owner'[f].root !in leaked' {
        assert LiveRoot(t', s, owner'[f].root);
      }
    }
  }

  /** Frames and PCB fields the memory invariants speak about are the same. */
  predicate SameMemory(p: Proc, p': Proc) {
    && (p'.Live() <==> p.Live()) && p'.root == p.root && p'.kstack == p.kstack && p'.brk == p.brk && p'.max == p.max
    && p'.tf.kernelSp == p.tf.kernelSp && p'.files == p.files
  }

  lemma SameMemoryKeeps(mem: Mem, owner: Owners, lay: Layout, t: Table, t': Table, bases: seq<nat>, boot: nat,
                        leaked: set<nat>)
    requires SpacesOk(mem, owner, lay, t, bases) && LedgerOk(owner, lay, t, boot, leaked)
    requires |t'| == |t| && forall i {:trigger t'[i]} | 0 <= i < |t| :: SameMemory(t[i], t'[i])
    ensures SpacesOk(mem, owner, lay, t', bases) && LedgerOk(owner, lay, t', boot, leaked)
  {
    hide SpaceOk;
    forall s {:trigger SlotOk(mem, owner, lay, t'[s], s, bases[s])} | 0 <= s < MAX_PROCS
      ensures SlotOk(mem, owner, lay, t'[s], s, bases[s])
    {
      assert SlotOk(mem, owner, lay, t[s], s, bases[s]);
    }
    forall f {:trigger owner[f]} | 0 <= f < TOTAL_PAGES
      ensures RoleOk(owner[f], f, lay, t', boot, leaked)
    {
      assert RoleOk(owner[f], f, lay, t, boot, leaked);
      if owner[f].Node? && owner[f].root != boot && owner[f].root !in leaked {
        var i: nat :| LiveRoot(t, i, owner[f].root);
        assert LiveRoot(t', i, owner[f].root);
      }
    }
    forall s {:trigger t'[s].root} | 0 <= s < |t'| && t'[s].Live()
      ensures t'[s].root != boot && t'[s].root !in leaked
    {
      assert t[s].root == t'[s].root;
    }
    forall i, j {:trigger t'[i].root, t'[j].root} | 0 <= i < j < |t'| && t'[i].Live() && t'[j].Live()
      ensures t'[i].root != t'[j].root
    {
      assert t[i].root == t'[i].root && t[j].root == t'[j].root;
    }
  }

  // ---- building a new tree ----

  /** Frames in use are untouched; free frames may have gone to tree `r`, root included. */
  ghost predicate NewTree(mem: Mem, owner: Owners, mem': Mem, owner': Owners, r: nat) {
    && |mem| == |mem'| == |owner| == |owner'| == TOTAL_PAGES
    && forall f {:trigger owner'[f]} {:trigger mem'[f]} | 0 <= f < TOTAL_PAGES ::
         if owner[f] != Free then owner'[f] == owner[f] && mem'[f] == mem[f]
         else owner'[f] == Free || (owner'[f].Node? && owner'[f].root == r)
  }

  lemma NewTreeGrows(mem: Mem, owner: Owners, mem1: Mem, owner1: Owners, mem2: Mem, owner2: Owners, r: nat)
    requires Forest(mem, owner) && r < TOTAL_PAGES && owner[r] == Free
    requires NewTree(mem, owner, mem1, owner1, r) && TreeGrowth(mem1, owner1, mem2, owner2, r)
    ensures NewTree(mem, owner, mem2, owner2, r)
  {
    hide V, Leaf, Target;
    forall f {:trigger owner2[f]} {:trigger mem2[f]} | 0 <= f < TOTAL_PAGES
      ensures if owner[f] != Free then owner2[f] == owner[f] && mem2[f] == mem[f]
              else owner2[f] == Free || (owner2[f].Node? && owner2[f].root == r)
    {
      if owner[f].Node? { assert NodeOk(mem, owner, f); }
    }
  }
}
