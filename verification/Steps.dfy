/** What the steps of the kernel do to its invariant, as statements about values. */
module Steps {
  import opened Sv39
  import opened Platform
  import opened PageTrees
  import opened Budget
  import opened Vmm
  import opened Elf
  import opened Mmu
  import opened Fork
  import opened Spaces
  import opened Procs
  import opened Invariants
  import opened Console
  import opened UserMem

  predicate CleanIfFree(p: Proc) { p.Live() || (p.parent == 0 && p.chan == NoChan) }

  /** A free slot carries nothing over to the process that will get it. */
  ghost predicate FreeSlotsClean(t: Table) {
    forall i {:trigger CleanIfFree(t[i])} | 0 <= i < |t| :: CleanIfFree(t[i])
  }

  /** The PCB free_proc leaves behind. */
  function Scrubbed(p: Proc): Proc {
    p.(kstack := -1, root := -1, state := UNUSED, pid := 0, parent := 0, chan := NoChan, brk := 0, max := 0,
       files := seq(FD_MAX, _ => CLOSED))
  }

  /** The table as schedule scans it: the current process put back in line if it was running. */
  function Requeued(t: Table, cur: nat): Table
    requires cur < |t|
  {
    if t[cur].state == RUNNING then t[cur := t[cur].(state := READY)] else t
  }

  lemma RequeuedGood(st: State, cur: nat)
    requires st.Good() && cur < |st.t|
    ensures st.(t := Requeued(st.t, cur)).Good()
  {
    hide SpacesOk, LedgerOk, SpaceOk;
    SleepersQuiet(st.t, st.noInput);
    MovesKeepGood(st, Requeued(st.t, cur));
  }

  /** Nothing committed is left to read. */
  predicate NoInput(e: Editor) { e.taken >= |e.committed| }

  /**
    What the invariant speaks of: memory and its owners, the process table, where each slot's heap
    begins, the boot tree, and the trees alloc_proc dropped.
   */
  datatype State = State(mem: Mem, owner: Owners, lay: Layout, t: Table, nextPid: nat, noInput: bool,
                         bases: seq<nat>, boot: nat, leaked: set<nat>)
  {
    /** Identities, sleepers, memory and ledger are in order. */
    ghost predicate Good() {
      && PidsOk(t, nextPid) && SleepersOk(t, noInput) && FreeSlotsClean(t)
      && SpacesOk(mem, owner, lay, t, bases) && LedgerOk(owner, lay, t, boot, leaked)
    }
  }

  /** A move of the scheduler or a wakeup changes no process's memory, identity or life. */
  lemma MovesKeepGood(st: State, t': Table)
    requires st.Good()
    requires |t'| == |st.t|
    requires forall i {:trigger t'[i]} | 0 <= i < |st.t| :: SameMemory(st.t[i], t'[i]) && Moves(st.t[i], t'[i])
    requires forall i {:trigger t'[i]} | 0 <= i < |st.t| && !st.t[i].Live() :: t'[i] == st.t[i]
    ensures st.(t := t').Good()
  {
    hide SpacesOk, LedgerOk;
    MovesKeep(st.t, t', st.nextPid, st.noInput);
    assert |st.t| == MAX_PROCS;
    SameMemoryKeeps(st.mem, st.owner, st.lay, st.t, t', st.bases, st.boot, st.leaked);
  }

  lemma PicksUp(st: State, next: nat)
    requires st.Good()
    requires next < |st.t| && st.t[next].state == READY
    ensures st.(t := st.t[next := st.t[next].(state := RUNNING)]).Good()
    ensures 0 <= st.t[next].root
  {
    hide SpacesOk, LedgerOk, SpaceOk;
    SleepersQuiet(st.t, st.noInput);
    MovesKeepGood(st, st.t[next := st.t[next].(state := RUNNING)]);
    LiveMemory(st.mem, st.owner, st.lay, st.t, st.bases, next);
  }

  /** Input never disturbs a process table: a commit finds nobody asleep on the ring any more. */
  lemma InputKeepsGood(st: State, e: Editor, e': Editor)
    requires st.(noInput := NoInput(e)).Good()
    requires e.taken <= |e.committed| && e'.taken == e.taken && e.committed <= e'.committed
    ensures st.(t := if e'.committed != e.committed then Woken(st.t, UartRx) else st.t, noInput := NoInput(e')).Good()
  {
    hide SpacesOk, LedgerOk, SpaceOk;
    if e'.committed != e.committed {
      CommitWakesReaders(st.t, st.nextPid, NoInput(e));
      assert |st.t| == MAX_PROCS;
      SameMemoryKeeps(st.mem, st.owner, st.lay, st.t, Woken(st.t, UartRx), st.bases, st.boot, st.leaked);
    }
  }

  lemma LiveSlot(st: State, s: nat)
    requires st.Good() && s < |st.t| && st.t[s].Live()
    ensures |st.bases| == MAX_PROCS && SlotOk(st.mem, st.owner, st.lay, st.t[s], s, st.bases[s])
    ensures |st.owner| == TOTAL_PAGES
    ensures 0 <= st.t[s].root < TOTAL_PAGES && 0 <= st.t[s].kstack < TOTAL_PAGES && IsRoot(st.owner, st.t[s].root)
    ensures st.owner[st.t[s].kstack] == Stack(s) && |st.t[s].files| == FD_MAX
  {
    hide LedgerOk;
    LiveMemory(st.mem, st.owner, st.lay, st.t, st.bases, s);
  }

  lemma RootsApart(st: State, i: nat, j: nat)
    requires st.Good()
    requires i < |st.t| && j < |st.t| && i != j && st.t[i].Live() && st.t[j].Live()
    ensures st.t[i].root != st.t[j].root
  {
    hide LedgerOk, SlotOk;
    if i < j { assert st.t[i].root != st.t[j].root; } else { assert st.t[j].root != st.t[i].root; }
  }

  lemma NotOwnChild(st: State, cur: nat)
    requires st.Good() && cur < |st.t| && st.t[cur].Live()
    ensures st.t[cur].parent != st.t[cur].pid
  {
    hide LedgerOk, SpacesOk;
    assert st.t[cur].parent < st.t[cur].pid;
  }

  lemma ExitKeepsGood(st: State, cur: nat, p: int)
    requires st.Good()
    requires cur < MAX_PROCS == |st.t| && st.t[cur].Live() && st.t[cur].state != BLOCKED
    requires IsParentSlot(st.t[cur := st.t[cur].(state := ZOMBIE)], cur, p)
    ensures var t1 := st.t[cur := st.t[cur].(state := ZOMBIE)];
      st.(t := if p == -1 then t1 else Woken(t1, Pcb(p))).Good()
  {
    hide LedgerOk, SpacesOk;
    var t1 := st.t[cur := st.t[cur].(state := ZOMBIE)];
    var t2 := if p == -1 then t1 else Woken(t1, Pcb(p));
    ExitWakesParent(st.t, st.nextPid, st.noInput, cur, p);
    SameMemoryKeeps(st.mem, st.owner, st.lay, st.t, t2, st.bases, st.boot, st.leaked);
  }

  /** Whoever waits for the process that ended is the parent found, and is ready. */
  lemma ParentIsUp(st: State, cur: nat, p: int)
    requires st.Good()
    requires cur < MAX_PROCS == |st.t| && st.t[cur].Live() && st.t[cur].state != BLOCKED
    requires IsParentSlot(st.t[cur := st.t[cur].(state := ZOMBIE)], cur, p)
    ensures var t1 := st.t[cur := st.t[cur].(state := ZOMBIE)];
      var t2 := if p == -1 then t1 else Woken(t1, Pcb(p));
      forall i {:trigger t2[i]} | 0 <= i < MAX_PROCS && WaitsFor(st.t, i, cur) :: t2[i].state == READY
  {
    hide LedgerOk, SpacesOk;
    var t1 := st.t[cur := st.t[cur].(state := ZOMBIE)];
    forall i | 0 <= i < MAX_PROCS && WaitsFor(st.t, i, cur) ensures i == p {
      assert t1[i] == st.t[i];
      if p != -1 { PidIsUnique(st.t, st.nextPid, i, p); }
    }
  }

  lemma FrameKeepsGood(st: State, cur: nat, tf: TrapFrame)
    requires st.Good()
    requires cur < |st.t| && st.t[cur].Live() && tf.kernelSp == st.t[cur].tf.kernelSp
    ensures st.(t := st.t[cur := st.t[cur].(tf := tf)]).Good()
  {
    hide LedgerOk, SpacesOk;
    SleepersQuiet(st.t, st.noInput);
    MovesKeepGood(st, st.t[cur := st.t[cur].(tf := tf)]);
  }

  lemma SleepKeepsGood(st: State, cur: nat, chan: Chan, tf: TrapFrame)
    requires st.Good()
    requires cur < |st.t| && st.t[cur].state == RUNNING && tf.kernelSp == st.t[cur].tf.kernelSp
    requires (chan == UartRx && st.noInput) || (chan == Pcb(cur) && exists c: nat :: LivingChild(st.t, cur, c))
    ensures st.(t := st.t[cur := st.t[cur].(state := BLOCKED, chan := chan, tf := tf)]).Good()
  {
    hide LedgerOk, SpacesOk;
    var t' := st.t[cur := st.t[cur].(state := BLOCKED, chan := chan, tf := tf)];
    forall i | 0 <= i < |t'| ensures SleepOk(t', st.noInput, i) {
      assert SleepOk(st.t, st.noInput, i);
      if t'[i].state == BLOCKED && t'[i].chan != UartRx {
        var c: nat :| LivingChild(st.t, i, c);
        assert LivingChild(t', i, c);
      }
    }
    SameMemoryKeeps(st.mem, st.owner, st.lay, st.t, t', st.bases, st.boot, st.leaked);
  }

  /** Reaping gives back exactly the child's tree and kernel stack. */
  lemma ReapKeepsGood(st: State, owner': Owners, z: nat)
    requires Forest(st.mem, st.owner) && st.Good()
    requires z < MAX_PROCS && |st.t| == MAX_PROCS && st.t[z].state == ZOMBIE && 0 <= st.t[z].kstack < |st.owner|
    requires 0 <= st.t[z].root
    requires owner' == WithoutTree(st.owner[st.t[z].kstack := Free], st.t[z].root)
    ensures st.(owner := owner', t := st.t[z := Scrubbed(st.t[z])]).Good()
  {
    hide SpaceOk;
    var r, p' := st.t[z].root, Scrubbed(st.t[z]);
    LiveMemory(st.mem, st.owner, st.lay, st.t, st.bases, z);
    ReapKeeps(st.t, st.nextPid, st.noInput, z, p');
    SpacesUpdate(st.mem, st.owner, st.mem, owner', st.lay, st.t, st.bases, r, z, p', st.bases[z]);
    assert st.bases[z := st.bases[z]] == st.bases;
    forall f {:trigger owner'[f]} | 0 <= f < TOTAL_PAGES
      ensures if Foreign(st.owner[f], r, z) then owner'[f] == st.owner[f] else OwnRoleOk(owner'[f], f, z, p', st.leaked)
    {
      assert RoleOk(st.owner[f], f, st.lay, st.t, st.boot, st.leaked);
    }
    forall i {:trigger st.t[i].root} | 0 <= i < |st.t| && st.t[i].Live() ensures st.t[i].root !in st.leaked {}
    forall q | q in st.leaked ensures IsRoot(owner', q) {}
    LedgerUpdate(st.owner, owner', st.lay, st.t, st.boot, st.leaked, st.leaked, r, z, p');
    CleanStays(st.t, z, p');
  }

  lemma CleanStays(t: Table, z: nat, p': Proc)
    requires FreeSlotsClean(t) && z < |t| && CleanIfFree(p')
    ensures FreeSlotsClean(t[z := p'])
  {
    var t' := t[z := p'];
    forall i {:trigger CleanIfFree(t'[i])} | 0 <= i < |t| ensures CleanIfFree(t'[i]) {
      assert CleanIfFree(t[i]);
    }
  }

  lemma WokenTwice(t: Table)
    ensures Woken(Woken(t, UartRx), UartRx) == Woken(t, UartRx)
  {
  }

  lemma LiveMemory(mem: Mem, owner: Owners, lay: Layout, t: Table, bases: seq<nat>, s: nat)
    requires SpacesOk(mem, owner, lay, t, bases) && s < |t| && t[s].Live()
    ensures |bases| == MAX_PROCS && SlotOk(mem, owner, lay, t[s], s, bases[s]) && |owner| == TOTAL_PAGES
    ensures 0 <= t[s].root < TOTAL_PAGES && 0 <= t[s].kstack < TOTAL_PAGES && IsRoot(owner, t[s].root)
    ensures owner[t[s].kstack] == Stack(s) && |t[s].files| == FD_MAX
  {
    hide Forest;
    assert SlotOk(mem, owner, lay, t[s], s, bases[s]);
  }

  /** Who is not asleep has no channel. */
  lemma SleepersQuiet(t: Table, ringEmpty: bool)
    requires SleepersOk(t, ringEmpty)
    ensures forall i {:trigger t[i].chan} | 0 <= i < |t| && t[i].state != BLOCKED && t[i].Live() :: t[i].chan == NoChan
  {
    forall i {:trigger t[i].chan} | 0 <= i < |t| && t[i].state != BLOCKED && t[i].Live() ensures t[i].chan == NoChan {
      assert SleepOk(t, ringEmpty, i);
    }
  }

  // ---- a new process ----

  /** init_process_fds. */
  function InitialFiles(): (files: seq<File>)
    ensures |files| == FD_MAX && forall fd | 0 <= fd < FD_MAX :: files[fd].offset <= files[fd].size
  {
    seq(FD_MAX, fd => if fd < 3 then CLOSED.(kind := ConsoleFile) else CLOSED)
  }

  /** The PCB alloc_proc hands out. */
  function NewPcb(p: Proc, pid: nat, root: nat, kstack: nat): Proc
    requires kstack < TOTAL_PAGES
  {
    p.(pid := pid, state := READY, root := root, kstack := kstack, files := InitialFiles(),
       tf := ZERO_FRAME.(kernelSp := FrameAddr(kstack) + PAGE_SIZE))
  }

  lemma CleanSlot(st: State, c: nat)
    requires st.Good() && c < |st.t| && !st.t[c].Live()
    ensures st.t[c].parent == 0 && st.t[c].chan == NoChan
  {
    assert CleanIfFree(st.t[c]);
  }

  /** A zeroed root is the beginning of a new tree. */
  lemma FirstNode(mem: Mem, owner: Owners, mem': Mem, owner': Owners, r: nat)
    requires |mem| == |owner| == TOTAL_PAGES && r < TOTAL_PAGES && owner[r] == Free
    requires mem' == mem[r := ZeroTable()] && owner' == owner[r := Node(r, Top)]
    ensures NewTree(mem, owner, mem', owner', r) && IsRoot(owner', r)
  {
  }

  /** The frames of a tree that maps the kernel and nothing else. */
  function SpaceFrames(lay: Layout): nat { 1 + |KernelTables(lay)| }

  /** The kernel's mappings in a fresh tree: the frames they took, or did not find. */
  lemma KernelTreeCost(owner0: Owners, owner1: Owners, owner2: Owners, lay: Layout, r: nat)
    requires Tables(owner1, r) == {} && |FreeFrames(owner0)| == |FreeFrames(owner1)| + 1
    ensures Spent(owner1, owner2, r, KernelTables(lay), 0) ==>
      Tables(owner2, r) == KernelTables(lay) && |FreeFrames(owner0)| == |FreeFrames(owner2)| + SpaceFrames(lay)
    ensures Short(owner1, r, KernelTables(lay), 0) ==> 0 < |FreeFrames(owner0)| < SpaceFrames(lay)
  {
    hide Tables, FreeFrames, KernelTables;
    assert KernelTables(lay) - {} == KernelTables(lay);
  }

  /**
    The root table alloc_proc and exec start from, with the kernel's mappings; `NoTable` is the
    panic of vmm_map_kernel. Which of the three happens is a matter of how many frames are free.
   */
  method NewKernelSpace(vm: AddressSpaces, lay: Layout) returns (rc: MapResult, root: nat)
    requires vm.Valid() && lay.Valid()
    modifies vm`mem, vm`owner, vm.pmm.bitmap
    ensures vm.Valid()
    ensures rc == Done ==> IsFresh(old(vm.owner), root) && IsRoot(vm.owner, root) && KernelOnly(vm.mem, lay, root)
    ensures rc == Done ==> NewTree(old(vm.mem), old(vm.owner), vm.mem, vm.owner, root)
    ensures rc == NoPage ==> vm.mem == old(vm.mem) && vm.owner == old(vm.owner)
    ensures var free := |FreeFrames(old(vm.owner))|;
      match rc
      case NoPage => free == 0
      case NoTable => 0 < free < SpaceFrames(lay)
      case Done => free == |FreeFrames(vm.owner)| + SpaceFrames(lay) && Tables(vm.owner, root) == KernelTables(lay)
  {
    hide Forest, PathOf, KernelPte, NewTree, TreeGrowth, FreeFrames, Tables, KernelTables, SpaceFrames, Spent, Short,
         NoFree;
    var ok;
    NoFreeIsZero(vm.owner);
    ok, root := vm.NewSpace();
    if !ok { return NoPage, 0; }
    ghost var mem1, owner1 := vm.mem, vm.owner;
    FirstNode(old(vm.mem), old(vm.owner), vm.mem, vm.owner, root);
    ok := vm.MapKernel(root, lay);
    KernelTreeCost(old(vm.owner), owner1, vm.owner, lay, root);
    if !ok { return NoTable, root; }
    NewTreeGrows(old(vm.mem), old(vm.owner), mem1, owner1, vm.mem, vm.owner, root);
    RootStays(mem1, owner1, vm.mem, vm.owner, root);
    rc := Done;
  }

  /** A frame allocated once the new tree is built lies above the kernel, and was free before. */
  lemma StackIsFresh(st: State, mem': Mem, owner': Owners, r: nat, k: nat)
    requires st.Good() && NewTree(st.mem, st.owner, mem', owner', r)
    requires st.lay.Valid() && k < TOTAL_PAGES && owner'[k] == Free
    ensures IsFresh(st.owner, k) && st.lay.end <= FrameAddr(k)
  {
  }

  /** Frames in use are untouched; free ones may have become tree `r` or the kernel stack `k` of slot `c`. */
  ghost predicate NewProcess(mem: Mem, owner: Owners, mem': Mem, owner': Owners, r: nat, k: nat, c: nat) {
    && |mem| == |mem'| == |owner| == |owner'| == TOTAL_PAGES
    && IsFresh(owner, r) && IsFresh(owner, k) && IsRoot(owner', r) && owner'[k] == Stack(c)
    && forall f {:trigger owner'[f]} {:trigger mem'[f]} | 0 <= f < TOTAL_PAGES ::
         if owner[f] != Free then owner'[f] == owner[f] && mem'[f] == mem[f]
         else f == k || owner'[f] == Free || (owner'[f].Node? && owner'[f].root == r)
  }

  lemma StackGiven(mem: Mem, owner: Owners, mem1: Mem, owner1: Owners, mem2: Mem, owner2: Owners, r: nat, k: nat,
                   c: nat)
    requires |owner1| == TOTAL_PAGES && k < TOTAL_PAGES && NewTree(mem, owner, mem1, owner1[k := Free], r)
    requires IsFresh(owner, r) && IsFresh(owner, k) && IsRoot(owner1, r) && owner1[k] == InFlight
    requires mem2 == mem1[k := ZeroPage()] && owner2 == owner1[k := Stack(c)]
    ensures NewProcess(mem, owner, mem2, owner2, r, k, c)
  {
    hide ZeroPage;
    forall f {:trigger owner2[f]} {:trigger mem2[f]} | 0 <= f < TOTAL_PAGES
      ensures if owner[f] != Free then owner2[f] == owner[f] && mem2[f] == mem[f]
              else f == k || owner2[f] == Free || (owner2[f].Node? && owner2[f].root == r)
    {
      assert owner1[k := Free][f] == if f == k then Free else owner1[f];
    }
  }

  lemma NewProcessGrows(mem: Mem, owner: Owners, mem1: Mem, owner1: Owners, mem2: Mem, owner2: Owners, r: nat, k: nat,
                        c: nat)
    requires Forest(mem, owner) && NewProcess(mem, owner, mem1, owner1, r, k, c)
    requires TreeGrowth(mem1, owner1, mem2, owner2, r)
    ensures NewProcess(mem, owner, mem2, owner2, r, k, c)
  {
    hide V, Leaf, Target;
    forall f {:trigger owner2[f]} {:trigger mem2[f]} | 0 <= f < TOTAL_PAGES
      ensures if owner[f] != Free then owner2[f] == owner[f] && mem2[f] == mem[f]
              else f == k || owner2[f] == Free || (owner2[f].Node? && owner2[f].root == r)
    {
      if owner[f].Node? { assert NodeOk(mem, owner, f); }
    }
  }

  /** The tree of a fresh root is nobody's yet. */
  lemma FreshRoot(mem: Mem, owner: Owners, f: nat, r: nat)
    requires Forest(mem, owner) && IsFresh(owner, r) && f < TOTAL_PAGES && owner[f].Node?
    ensures owner[f].root != r
  {
    hide V, Leaf, Target, EntriesOk;
    assert NodeOk(mem, owner, f);
  }

  /** Fork and boot: a free slot becomes a ready process with the next pid, and nobody else notices. */
  lemma SpawnKeepsGood(st: State, mem': Mem, owner': Owners, c: nat, p': Proc, base': nat)
    requires Forest(st.mem, st.owner) && st.Good()
    requires c < |st.t| && !st.t[c].Live() && p'.state == READY && p'.chan == NoChan && p'.pid == st.nextPid
    requires p'.parent < st.nextPid
    requires 0 <= p'.root && 0 <= p'.kstack && NewProcess(st.mem, st.owner, mem', owner', p'.root, p'.kstack, c)
    requires SlotOk(mem', owner', st.lay, p', c, base')
    ensures st.(mem := mem', owner := owner', t := st.t[c := p'], nextPid := st.nextPid + 1,
                bases := st.bases[c := base']).Good()
  {
    hide SpaceOk, NodeOk;
    var r := p'.root;
    SpawnKeeps(st.t, st.nextPid, st.noInput, c, p');
    SpacesUpdate(st.mem, st.owner, mem', owner', st.lay, st.t, st.bases, r, c, p', base');
    forall f {:trigger owner'[f]} | 0 <= f < TOTAL_PAGES
      ensures if Foreign(st.owner[f], r, c) then owner'[f] == st.owner[f] else OwnRoleOk(owner'[f], f, c, p', st.leaked)
    {
      assert RoleOk(st.owner[f], f, st.lay, st.t, st.boot, st.leaked);
      if st.owner[f].Node? { FreshRoot(st.mem, st.owner, f, r); }
    }
    LedgerUpdate(st.owner, owner', st.lay, st.t, st.boot, st.leaked, st.leaked, r, c, p');
    CleanStays(st.t, c, p');
  }

  function WithA0(p: Proc, v: Word): Proc { p.(tf := p.tf.(a0 := v)) }

  /** The PCB of a forked child. */
  function ForkPcb(parent: Proc, pid: nat, root: nat, kstack: nat): Proc
    requires kstack < TOTAL_PAGES
  {
    Proc(pid, READY, root, kstack, parent.tf.(kernelSp := FrameAddr(kstack) + PAGE_SIZE, a0 := 0), parent.pid,
         parent.brk, parent.max, NoChan, parent.files)
  }

  /** The parent's tree and the kernel-only tree of the new process, ready for the copy. */
  lemma ParentAndChild(mem: Mem, owner: Owners, mem1: Mem, owner1: Owners, lay: Layout, pr: nat, cr: nat, k: nat,
                       c: nat)
    requires IsRoot(owner, pr) && NewProcess(mem, owner, mem1, owner1, cr, k, c) && KernelOnly(mem1, lay, cr)
    ensures pr != cr && IsRoot(owner1, pr) && IsRoot(owner1, cr)
    ensures forall q {:trigger Entry(mem1, cr, q)} | PagePath(q) && q.Under(Top) :: !UserLeaf(Entry(mem1, cr, q))
  {
    hide PathOf, KernelPte, V, Leaf, U;
    forall q {:trigger Entry(mem1, cr, q)} | PagePath(q) && q.Under(Top) ensures !UserLeaf(Entry(mem1, cr, q)) {
      SplitIsInjective(q);
      assert PathOf(PageOf(q)) == q;
      KernelIsNotUser(lay, PageOf(q));
    }
  }

  /** The copy done: the child's tree is a fork of the parent's, and no frame in use was touched. */
  lemma Copied(mem0: Mem, owner0: Owners, mem1: Mem, owner1: Owners, mem: Mem, owner: Owners, lay: Layout, pr: nat,
               cr: nat, k: nat, c: nat)
    requires Forest(mem0, owner0) && IsRoot(owner0, pr) && NewProcess(mem0, owner0, mem1, owner1, cr, k, c)
    requires KernelOnly(mem1, lay, cr)
    requires TreeGrowth(mem1, owner1, mem, owner, cr) && CopiedUnder(mem1, owner1, mem, pr, cr, Top)
    ensures NewProcess(mem0, owner0, mem, owner, cr, k, c) && ForkedFrom(mem0, owner0, mem, lay, pr, cr)
  {
    hide KernelOnly, CopiedUnder, Forest, ForkedFrom;
    NewProcessGrows(mem0, owner0, mem1, owner1, mem, owner, cr, k, c);
    CopyIsFork(mem0, owner0, mem1, owner1, mem, lay, pr, cr);
  }

  /** vmm_copy_uvm from the parent's tree into the new process's. */
  method ForkMemory(vm: AddressSpaces, lay: Layout, pr: nat, cr: nat, ghost k: nat, ghost c: nat,
                    ghost mem0: Mem, ghost owner0: Owners)
    returns (ok: bool)
    requires vm.Valid() && Forest(mem0, owner0) && IsRoot(owner0, pr)
    requires NewProcess(mem0, owner0, vm.mem, vm.owner, cr, k, c) && KernelOnly(vm.mem, lay, cr)
    requires Tables(vm.owner, cr) == KernelTables(lay)
    modifies vm`mem, vm`owner, vm.pmm.bitmap
    ensures vm.Valid() && (ok <==> |FreeFrames(old(vm.owner))| >= CopyFrames(lay, owner0, pr))
    ensures ok ==> |FreeFrames(old(vm.owner))| == |FreeFrames(vm.owner)| + CopyFrames(lay, owner0, pr)
    ensures ok ==> NewProcess(mem0, owner0, vm.mem, vm.owner, cr, k, c) && ForkedFrom(mem0, owner0, vm.mem, lay, pr, cr)
  {
    hide Forest, KernelOnly, NewProcess, ForkedFrom, CopiedUnder, UserLeaf, PaidBelow, TooFewBelow, KernelTables,
         Tables, FreeFrames, CopyFrames;
    ghost var mem1, owner1 := vm.mem, vm.owner;
    ParentAndChild(mem0, owner0, vm.mem, vm.owner, lay, pr, cr, k, c);
    ok := CopyUvm(vm, pr, cr, 2, pr, cr, Top);
    ForkCost(mem0, owner0, mem1, owner1, vm.owner, lay, pr, cr, k, c);
    if ok { Copied(mem0, owner0, mem1, owner1, vm.mem, vm.owner, lay, pr, cr, k, c); }
  }

  /**
    The frames that the copy of tree `pr` takes: its pages below 2 GB, and its tables there that the
    kernel's map has not.
   */
  ghost function CopyFrames(lay: Layout, owner: Owners, pr: nat): nat {
    |PagesDue(owner, pr, Top, ENTRIES)| + |TablesDue(owner, pr, Top, ENTRIES) - KernelTables(lay)|
  }

  lemma ForkCost(mem0: Mem, owner0: Owners, mem1: Mem, owner1: Owners, owner: Owners, lay: Layout, pr: nat, cr: nat,
                 k: nat, c: nat)
    requires Forest(mem0, owner0) && IsRoot(owner0, pr) && NewProcess(mem0, owner0, mem1, owner1, cr, k, c)
    requires Tables(owner1, cr) == KernelTables(lay)
    ensures PaidBelow(owner1, owner, pr, cr, Top, ENTRIES) ==>
      |FreeFrames(owner1)| == |FreeFrames(owner)| + CopyFrames(lay, owner0, pr)
    ensures TooFewBelow(owner1, pr, cr, Top) ==> |FreeFrames(owner1)| < CopyFrames(lay, owner0, pr)
  {
    NewcomersPlaces(mem0, owner0, mem1, owner1, pr, cr, k, c);
    hide Tables, FreeFrames, KernelTables, Places, Forest, NewProcess;
    assert TablesDue(owner1, pr, Top, ENTRIES) == TablesDue(owner0, pr, Top, ENTRIES);
    assert PagesDue(owner1, pr, Top, ENTRIES) == PagesDue(owner0, pr, Top, ENTRIES);
  }

  lemma NewcomersPlaces(mem: Mem, owner: Owners, mem': Mem, owner': Owners, pr: nat, cr: nat, k: nat, c: nat)
    requires NewProcess(mem, owner, mem', owner', cr, k, c) && IsRoot(owner, pr)
    ensures Places(owner', pr) == Places(owner, pr)
  {
    forall q ensures q in Places(owner', pr) <==> q in Places(owner, pr) {
      if q in Places(owner', pr) {
        var f: nat :| f < |owner'| && owner'[f] == Node(pr, q);
        assert owner[f] == Node(pr, q);
      }
      if q in Places(owner, pr) {
        var f: nat :| f < |owner| && owner[f] == Node(pr, q);
        assert owner'[f] == Node(pr, q);
      }
    }
  }

  lemma ForkKeepsGood(st: State, mem': Mem, owner': Owners, cur: nat, c: nat, r: nat, k: nat)
    requires Forest(st.mem, st.owner) && st.lay.Valid() && st.Good()
    requires cur < |st.t| && st.t[cur].state == RUNNING && 0 <= st.t[cur].root && c < |st.t| && !st.t[c].Live()
    requires k < TOTAL_PAGES
    requires NewProcess(st.mem, st.owner, mem', owner', r, k, c)
    requires ForkedFrom(st.mem, st.owner, mem', st.lay, st.t[cur].root, r)
    requires |st.bases| == MAX_PROCS
    ensures st.(mem := mem', owner := owner',
                t := st.t[c := ForkPcb(st.t[cur], st.nextPid, r, k)][cur := WithA0(st.t[cur], st.nextPid % WORD_LIMIT)],
                nextPid := st.nextPid + 1, bases := st.bases[c := st.bases[cur]]).Good()
  {
    hide Forest, NewProcess, ForkedFrom, SpaceOk, LedgerOk;
    var p' := ForkPcb(st.t[cur], st.nextPid, r, k);
    LiveMemory(st.mem, st.owner, st.lay, st.t, st.bases, cur);
    assert st.t[cur].pid < st.nextPid;
    NewcomerRoot(st.mem, st.owner, mem', owner', r, k, c);
    ForkSpace(st.mem, st.owner, mem', owner', st.lay, st.t[cur].root, r, st.bases[cur], st.t[cur].brk);
    SpawnKeepsGood(st, mem', owner', c, p', st.bases[cur]);
    var st' := st.(mem := mem', owner := owner', t := st.t[c := p'], nextPid := st.nextPid + 1,
                   bases := st.bases[c := st.bases[cur]]);
    FrameKeepsGood(st', cur, st.t[cur].tf.(a0 := st.nextPid % WORD_LIMIT));
  }

  lemma NewcomerRoot(mem: Mem, owner: Owners, mem': Mem, owner': Owners, r: nat, k: nat, c: nat)
    requires NewProcess(mem, owner, mem', owner', r, k, c)
    ensures IsRoot(owner', r) && |owner'| == TOTAL_PAGES && r < TOTAL_PAGES
    ensures k < TOTAL_PAGES ==> owner'[k] == Stack(c)
  {
  }

  /** alloc_proc that fails leaves a free slot free; a tree it dropped is on the books as leaked. */
  lemma FailedSpawnKeepsGood(st: State, mem': Mem, owner': Owners, leaked': set<nat>, c: nat, p': Proc, r: int)
    requires Forest(st.mem, st.owner) && st.Good()
    requires c < |st.t| && !st.t[c].Live() && !p'.Live() && CleanIfFree(p')
    requires if r == -1 then leaked' == st.leaked && mem' == st.mem && owner' == st.owner
             else
               && 0 <= r && IsFresh(st.owner, r) && IsRoot(owner', r) && NewTree(st.mem, st.owner, mem', owner', r)
               && leaked' == st.leaked + {r}
    ensures st.(mem := mem', owner := owner', t := st.t[c := p'], nextPid := st.nextPid + 1, leaked := leaked').Good()
  {
    hide SpaceOk, NodeOk;
    StaysFree(st.t, st.nextPid, st.noInput, c, p');
    CleanStays(st.t, c, p');
    SpacesUpdate(st.mem, st.owner, mem', owner', st.lay, st.t, st.bases, r, c, p', st.bases[c]);
    assert st.bases[c := st.bases[c]] == st.bases;
    forall f {:trigger owner'[f]} | 0 <= f < TOTAL_PAGES
      ensures if Foreign(st.owner[f], r, c) then owner'[f] == st.owner[f] else OwnRoleOk(owner'[f], f, c, p', leaked')
    {
      assert RoleOk(st.owner[f], f, st.lay, st.t, st.boot, st.leaked);
      if st.owner[f].Node? && r != -1 { FreshRoot(st.mem, st.owner, f, r); }
    }
    forall i {:trigger st.t[i].root} | 0 <= i < |st.t| && st.t[i].Live() ensures st.t[i].root !in leaked' {
      LiveMemory(st.mem, st.owner, st.lay, st.t, st.bases, i);
    }
    LedgerUpdate(st.owner, owner', st.lay, st.t, st.boot, st.leaked, leaked', r, c, p');
  }

  lemma StaysFree(t: Table, nextPid: nat, ringEmpty: bool, c: nat, p': Proc)
    requires PidsOk(t, nextPid) && SleepersOk(t, ringEmpty) && c < |t| && !t[c].Live() && !p'.Live()
    ensures PidsOk(t[c := p'], nextPid + 1) && SleepersOk(t[c := p'], ringEmpty)
  {
    var t' := t[c := p'];
    forall i | 0 <= i < |t'| ensures SleepOk(t', ringEmpty, i) {
      assert SleepOk(t, ringEmpty, i);
      if t'[i].state == BLOCKED && t'[i].chan != UartRx {
        var k: nat :| LivingChild(t, i, k);
        assert LivingChild(t', i, k);
      }
    }
  }

  // ---- a process that changes its own memory ----

  /** What sbrk, exec and stores to user memory have in common: only the process's own frames change. */
  lemma OwnMemoryKeepsGood(st: State, mem': Mem, owner': Owners, s: nat, p': Proc, base': nat)
    requires Forest(st.mem, st.owner) && st.Good()
    requires s < |st.t| && st.t[s].Live() && st.t[s].state != BLOCKED && p'.Live() && Moves(st.t[s], p')
    requires Touches(st.mem, st.owner, mem', owner', st.t[s].root, s)
    requires SlotOk(mem', owner', st.lay, p', s, base') && (p'.root == st.t[s].root || IsFresh(st.owner, p'.root))
    requires forall f {:trigger owner'[f]} | 0 <= f < TOTAL_PAGES ::
      Foreign(st.owner[f], st.t[s].root, s) || OwnRoleOk(owner'[f], f, s, p', st.leaked)
    ensures st.(mem := mem', owner := owner', t := st.t[s := p'], bases := st.bases[s := base']).Good()
  {
    hide SpaceOk, SlotOk;
    var t' := st.t[s := p'];
    SleepersQuiet(st.t, st.noInput);
    forall i {:trigger t'[i]} | 0 <= i < |st.t| ensures Moves(st.t[i], t'[i]) {}
    MovesKeep(st.t, t', st.nextPid, st.noInput);
    CleanStays(st.t, s, p');
    LiveMemory(st.mem, st.owner, st.lay, st.t, st.bases, s);
    SpacesUpdate(st.mem, st.owner, mem', owner', st.lay, st.t, st.bases, st.t[s].root, s, p', base');
    LedgerUpdate(st.owner, owner', st.lay, st.t, st.boot, st.leaked, st.leaked, st.t[s].root, s, p');
  }

  lemma HeapBounds(mem: Mem, owner: Owners, lay: Layout, p: Proc, s: nat, base: nat)
    requires SlotOk(mem, owner, lay, p, s, base) && p.Live()
    ensures p.brk <= HEAP_MAX == p.max && SpaceOk(mem, owner, lay, p.root, base, p.brk)
  {
  }

  /** A process's address space lies below the end of the low half. */
  lemma SpaceIsLow(mem: Mem, owner: Owners, lay: Layout, r: nat, base: nat, brk: nat)
    requires lay.Valid() && SpaceOk(mem, owner, lay, r, base, brk)
    ensures HighUnmapped(mem, r)
  {
    hide PathOf, KernelPte, UserOrNothing, HeapLeaf, Entry;
    forall page {:trigger PathOf(page)} | LOW_HALF / PAGE_SIZE <= page < PAGES
      ensures Entry(mem, r, PathOf(page)) == 0
    {
      assert PageOk(lay, page, base, brk, Entry(mem, r, PathOf(page)));
      assert KernelFlags(lay, page) == 0;
    }
  }

  lemma OffsetsOk(mem: Mem, owner: Owners, lay: Layout, p: Proc, s: nat, base: nat, fd: nat)
    requires SlotOk(mem, owner, lay, p, s, base) && p.Live() && fd < FD_MAX
    ensures |p.files| == FD_MAX && p.files[fd].offset <= p.files[fd].size
  {
  }

  lemma SbrkKeepsGood(st: State, mem': Mem, owner': Owners, s: nat, brk': nat)
    requires Forest(st.mem, st.owner) && st.Good()
    requires s < |st.t| && st.t[s].state == RUNNING && 0 <= st.t[s].root
    requires TreeGrowth(st.mem, st.owner, mem', owner', st.t[s].root)
    requires s < |st.bases| && SpaceOk(mem', owner', st.lay, st.t[s].root, st.bases[s], brk')
    ensures st.(mem := mem', owner := owner', t := st.t[s := st.t[s].(brk := brk')]).Good()
  {
    hide SpaceOk, NodeOk;
    var p' := st.t[s].(brk := brk');
    LiveMemory(st.mem, st.owner, st.lay, st.t, st.bases, s);
    SleepersQuiet(st.t, st.noInput);
    GrowthTouches(st.mem, st.owner, mem', owner', st.t[s].root, s);
    forall f {:trigger owner'[f]} | 0 <= f < TOTAL_PAGES
      ensures Foreign(st.owner[f], st.t[s].root, s) || OwnRoleOk(owner'[f], f, s, p', st.leaked)
    {
      assert RoleOk(st.owner[f], f, st.lay, st.t, st.boot, st.leaked);
    }
    OwnMemoryKeepsGood(st, mem', owner', s, p', st.bases[s]);
    assert st.bases[s := st.bases[s]] == st.bases;
  }

  /** A store to the process's own user pages. */
  lemma UserStoreKeepsGood(st: State, mem': Mem, s: nat)
    requires Forest(st.mem, st.owner) && st.Good()
    requires s < |st.t| && st.t[s].state == RUNNING && 0 <= st.t[s].root && |mem'| == |st.mem|
    requires SameLeaves(st.mem, mem', st.owner)
    requires forall f {:trigger mem'[f]} | 0 <= f < TOTAL_PAGES && !UserPageOf(st.owner[f], st.t[s].root) ::
      mem'[f] == st.mem[f]
    ensures st.(mem := mem').Good()
  {
    hide SpaceOk, NodeOk;
    LiveMemory(st.mem, st.owner, st.lay, st.t, st.bases, s);
    SleepersQuiet(st.t, st.noInput);
    SpaceStays(st.mem, st.owner, mem', st.owner, st.lay, st.t[s].root, st.bases[s], st.t[s].brk);
    forall f {:trigger st.owner[f]} | 0 <= f < TOTAL_PAGES
      ensures Foreign(st.owner[f], st.t[s].root, s) || OwnRoleOk(st.owner[f], f, s, st.t[s], st.leaked)
    {
      assert RoleOk(st.owner[f], f, st.lay, st.t, st.boot, st.leaked);
    }
    OwnMemoryKeepsGood(st, mem', st.owner, s, st.t[s], st.bases[s]);
    assert st.bases[s := st.bases[s]] == st.bases && st.t[s := st.t[s]] == st.t;
  }

  /** Reading committed bytes disturbs no sleeper: while there were any, nobody slept on the ring. */
  lemma DrainKeepsGood(st: State)
    requires st.(noInput := false).Good()
    ensures st.Good()
  {
    hide SpacesOk, LedgerOk;
    forall i | 0 <= i < |st.t| ensures SleepOk(st.t, st.noInput, i) {
      assert SleepOk(st.t, false, i);
    }
  }

  /** Opening, reading and closing files. */
  lemma FilesKeepGood(st: State, s: nat, fd: nat, file: File)
    requires st.Good()
    requires s < |st.t| && st.t[s].state == RUNNING && fd < FD_MAX && file.offset <= file.size
    requires |st.t[s].files| == FD_MAX
    ensures st.(t := st.t[s := st.t[s].(files := st.t[s].files[fd := file])]).Good()
  {
    hide SpaceOk, LedgerOk;
    var t' := st.t[s := st.t[s].(files := st.t[s].files[fd := file])];
    SleepersQuiet(st.t, st.noInput);
    forall i {:trigger t'[i]} | 0 <= i < |st.t| ensures Moves(st.t[i], t'[i]) {}
    MovesKeep(st.t, t', st.nextPid, st.noInput);
    CleanStays(st.t, s, t'[s]);
    LiveMemory(st.mem, st.owner, st.lay, st.t, st.bases, s);
    assert SlotOk(st.mem, st.owner, st.lay, st.t[s], s, st.bases[s]);
    FilesKeepLedger(st.mem, st.owner, st.lay, st.t, st.bases, st.boot, st.leaked, s, t'[s]);
  }

  lemma FilesKeepLedger(mem: Mem, owner: Owners, lay: Layout, t: Table, bases: seq<nat>, boot: nat, leaked: set<nat>,
                        s: nat, p': Proc)
    requires SpacesOk(mem, owner, lay, t, bases) && LedgerOk(owner, lay, t, boot, leaked)
    requires s < |t| && t[s].Live() && p' == t[s].(files := p'.files)
    requires |p'.files| == FD_MAX && forall fd | 0 <= fd < FD_MAX :: p'.files[fd].offset <= p'.files[fd].size
    ensures SpacesOk(mem, owner, lay, t[s := p'], bases) && LedgerOk(owner, lay, t[s := p'], boot, leaked)
  {
    hide SpaceOk;
    var t' := t[s := p'];
    forall i {:trigger SlotOk(mem, owner, lay, t'[i], i, bases[i])} | 0 <= i < MAX_PROCS
      ensures SlotOk(mem, owner, lay, t'[i], i, bases[i])
    {
      assert SlotOk(mem, owner, lay, t[i], i, bases[i]);
    }
    forall f {:trigger owner[f]} | 0 <= f < TOTAL_PAGES ensures RoleOk(owner[f], f, lay, t', boot, leaked) {
      assert RoleOk(owner[f], f, lay, t, boot, leaked);
      if owner[f].Node? && owner[f].root != boot && owner[f].root !in leaked {
        var i: nat :| LiveRoot(t, i, owner[f].root);
        assert LiveRoot(t', i, owner[f].root);
      }
    }
    forall i {:trigger t'[i].root} | 0 <= i < |t'| && t'[i].Live() ensures t'[i].root != boot && t'[i].root !in leaked {
      assert t[i].root == t'[i].root;
    }
    forall i, j {:trigger t'[i].root, t'[j].root} | 0 <= i < j < |t'| && t'[i].Live() && t'[j].Live()
      ensures t'[i].root != t'[j].root
    {
      assert t[i].root == t'[i].root && t[j].root == t'[j].root;
    }
  }

  // ---- exec ----

  /** What exec and load_elf change in the PCB. */
  function ExecPcb(p: Proc, root: nat, res: Loaded): Proc
    requires res.Running?
  {
    p.(root := root, tf := p.tf.(sepc := res.sepc, sp := res.sp), brk := res.heapBreak, max := res.heapMax)
  }

  /**
    Exec's frames: the old tree's are free, free ones may have become the new tree, the one named by
    `lost`, if any, is lost, and all others are as they were.
   */
  ghost predicate Replaced(owner: Owners, owner': Owners, r: nat, r': nat, lost: int) {
    && |owner| == |owner'| == TOTAL_PAGES && IsFresh(owner, r') && IsRoot(owner', r')
    && (lost == -1 || (IsFresh(owner, lost) && owner'[lost] == Lost))
    && forall f {:trigger owner'[f]} | 0 <= f < TOTAL_PAGES ::
         if owner[f].Node? && owner[f].root == r then owner'[f] == Free
         else if owner[f] != Free then owner'[f] == owner[f]
         else f == lost || owner'[f] == Free || (owner'[f].Node? && owner'[f].root == r')
  }

  /** The load went to a new tree, and then the old tree was dropped. */
  lemma ExecReplaces(mem: Mem, owner: Owners, mem1: Mem, owner1: Owners, mem2: Mem, owner2: Owners, r: nat, r': nat,
                     lost: int)
    requires Forest(mem, owner) && IsRoot(owner, r) && IsFresh(owner, r') && IsRoot(owner1, r')
    requires NewTree(mem, owner, mem1, owner1, r')
    requires -1 <= lost < TOTAL_PAGES && |owner2| == TOTAL_PAGES
    requires TreeGrowth(mem1, owner1, mem2, Found(owner2, lost), r')
    requires lost != -1 ==> owner2[lost] == Lost && owner1[lost] == Free
    ensures Replaced(owner, WithoutTree(owner2, r), r, r', lost) && r != r'
    ensures forall f {:trigger mem2[f]} | 0 <= f < TOTAL_PAGES && owner[f] != Free :: mem2[f] == mem[f]
    ensures |mem2| == TOTAL_PAGES && IsRoot(owner2, r)
  {
    hide V, Leaf, Target;
    var all := Found(owner2, lost);
    NewTreeGrows(mem, owner, mem1, owner1, mem2, all, r');
    forall f: nat | f < TOTAL_PAGES ensures all[f] == if f == lost then Free else owner2[f] {}
    var owner3 := WithoutTree(owner2, r);
    forall f {:trigger owner3[f]} | 0 <= f < TOTAL_PAGES
      ensures if owner[f].Node? && owner[f].root == r then owner3[f] == Free
              else if owner[f] != Free then owner3[f] == owner[f]
              else f == lost || owner3[f] == Free || (owner3[f].Node? && owner3[f].root == r')
    {
      assert all[f] == if f == lost then Free else owner2[f];
    }
    assert all[r'] == owner2[r'];
  }

  /**
    The frames that exec must find free, the old tree being still in place: a kernel tree, the
    program's pages with their tables, and its stack page. To keep the stack page it takes one more,
    for the table above it.
   */
  function ExecFrames(lay: Layout, img: seq<byte>, at: nat): nat { SpaceFrames(lay) + ProgramFrames(lay, img, at) }

  /**
    From pmm_alloc_page to load_elf in SYS_EXEC: a new tree with the program in it; false where the
    kernel panics. An ELF file is loaded exactly when ExecFrames frames are free, and loses its
    stack page exactly when not one more is.
   */
  method LoadNew(vm: AddressSpaces, lay: Layout, img: seq<byte>, at: nat, ghost oldPt: nat)
    returns (ok: bool, newPt: nat, res: Loaded, ghost lost: int)
    requires vm.Valid() && lay.Valid() && IsRoot(vm.owner, oldPt) && (Magic(img, at) == ELF_NUM ==> GoodImage(img, at))
    modifies vm`mem, vm`owner, vm.pmm.bitmap
    ensures vm.Valid() && (ok ==> res.Running? && newPt != oldPt && IsRoot(vm.owner, oldPt) && IsRoot(vm.owner, newPt))
    ensures ok <==> Magic(img, at) == ELF_NUM && |FreeFrames(old(vm.owner))| >= ExecFrames(lay, img, at)
    ensures ok ==> (lost == -1 <==> |FreeFrames(old(vm.owner))| > ExecFrames(lay, img, at))
    ensures ok ==> Replaced(old(vm.owner), WithoutTree(vm.owner, oldPt), oldPt, newPt, lost)
    ensures ok ==>
      forall f {:trigger vm.mem[f]} | 0 <= f < TOTAL_PAGES && old(vm.owner)[f] != Free :: vm.mem[f] == old(vm.mem)[f]
    ensures ok ==> ProgramIn(vm.mem, lay, newPt, img, at, res, lost)
  {
    hide Forest, KernelOnly, NewTree, GoodImage, ProgramIn, Replaced, Magic, TreeGrowth, Found, FreeFrames, Tables,
         KernelTables, ProgramFrames, NoStackFrame, NoStackTables, ProgramSpent, NoFree;
    var rc;
    rc, newPt := NewKernelSpace(vm, lay);
    res, lost := Panic, -1;
    if rc != Done { ok := false; return; }
    ghost var mem1, owner1 := vm.mem, vm.owner;
    res, lost := LoadElf(vm, lay, newPt, img, at);
    if Magic(img, at) == ELF_NUM { ProgramNeeds(owner1, vm.owner, newPt, lay, img, at); }
    ok := res.Running?;
    if ok { ExecReplaces(old(vm.mem), old(vm.owner), mem1, owner1, vm.mem, vm.owner, oldPt, newPt, lost); }
  }

  /** The program's own image lies where its heap begins: what exec put in the PCB fits the new tree. */
  lemma ExecFits(mem: Mem, owner: Owners, lay: Layout, r: nat, img: seq<byte>, at: nat, res: Loaded, lost: int)
    requires lay.Valid() && IsRoot(owner, r) && (Magic(img, at) == ELF_NUM ==> GoodImage(img, at))
    requires res.Running? && ProgramIn(mem, lay, r, img, at, res, lost)
    ensures SpaceOk(mem, owner, lay, r, res.heapBreak, res.heapBreak) && res.heapMax == HEAP_MAX
  {
    hide SpaceOk, ImageIn, GoodImage;
    ExecSpace(mem, owner, lay, r, img, at, res, lost);
  }

  lemma ExecKeepsGood(st: State, mem': Mem, owner': Owners, s: nat, p': Proc, base': nat, lost: int)
    requires Forest(st.mem, st.owner) && st.Good()
    requires s < |st.t| && st.t[s].state == RUNNING && 0 <= st.t[s].root && 0 <= p'.root
    requires Replaced(st.owner, owner', st.t[s].root, p'.root, lost)
    requires |st.mem| == |mem'| == TOTAL_PAGES
    requires forall f {:trigger mem'[f]} | 0 <= f < TOTAL_PAGES && st.owner[f] != Free :: mem'[f] == st.mem[f]
    requires p' == st.t[s].(root := p'.root, brk := base', max := HEAP_MAX, tf := p'.tf)
    requires p'.tf.kernelSp == st.t[s].tf.kernelSp
    requires SpaceOk(mem', owner', st.lay, p'.root, base', base')
    ensures st.(mem := mem', owner := owner', t := st.t[s := p'], bases := st.bases[s := base']).Good()
  {
    hide SpaceOk, NodeOk;
    LiveMemory(st.mem, st.owner, st.lay, st.t, st.bases, s);
    SleepersQuiet(st.t, st.noInput);
    forall f {:trigger owner'[f]} | 0 <= f < TOTAL_PAGES
      ensures Foreign(st.owner[f], st.t[s].root, s) || OwnRoleOk(owner'[f], f, s, p', st.leaked)
    {
      assert RoleOk(st.owner[f], f, st.lay, st.t, st.boot, st.leaked);
    }
    OwnMemoryKeepsGood(st, mem', owner', s, p', base');
  }

  // ---- boot ----

  /** A PCB as the loader left it: all zeros. */
  const ZERO_PCB := Proc(0, UNUSED, -1, -1, ZERO_FRAME, 0, 0, 0, NoChan, [])

  /** The process table before any process. */
  function NoProcs(): Table { seq(MAX_PROCS, _ => ZERO_PCB) }

  lemma OneRuns(c: nat, p: Proc)
    requires c < MAX_PROCS
    ensures |NoProcs()| == MAX_PROCS && OnlyRuns(NoProcs()[c := p], c)
  {
  }

  /** With the boot tree built and no process yet, everything in use is the kernel's. */
  lemma BootIsGood(mem: Mem, owner: Owners, mem': Mem, owner': Owners, lay: Layout, t: Table, bases: seq<nat>, r: nat)
    requires NewTree(mem, owner, mem', owner', r) && IsRoot(owner', r) && IsFresh(owner, r) && |bases| == MAX_PROCS
    requires forall f {:trigger owner[f]} | 0 <= f < TOTAL_PAGES ::
      owner[f] == if f < Protected(lay) then Reserved else Free
    requires t == NoProcs()
    ensures State(mem', owner', lay, t, 1, true, bases, r, {}).Good()
  {
    hide SpaceOk;
    forall f {:trigger owner'[f]} | 0 <= f < TOTAL_PAGES ensures RoleOk(owner'[f], f, lay, t, r, {}) {
      assert owner[f] == if f < Protected(lay) then Reserved else Free;
    }
    forall f | 0 <= f < Protected(lay) && f < TOTAL_PAGES ensures owner'[f] == Reserved {
      assert owner[f] == Reserved;
    }
    forall i {:trigger CleanIfFree(t[i])} | 0 <= i < |t| ensures CleanIfFree(t[i]) {}
  }

  /** Dropping a free frame for good disturbs nothing but the count of free frames. */
  lemma LostKeepsGood(st: State, l: nat)
    requires st.Good() && IsFresh(st.owner, l)
    ensures st.(owner := st.owner[l := Lost]).Good()
  {
    hide PageOk;
    var owner' := st.owner[l := Lost];
    forall i {:trigger SlotOk(st.mem, owner', st.lay, st.t[i], i, st.bases[i])} | 0 <= i < MAX_PROCS
      ensures SlotOk(st.mem, owner', st.lay, st.t[i], i, st.bases[i])
    {
      assert SlotOk(st.mem, st.owner, st.lay, st.t[i], i, st.bases[i]);
    }
    forall f {:trigger owner'[f]} | 0 <= f < TOTAL_PAGES
      ensures RoleOk(owner'[f], f, st.lay, st.t, st.boot, st.leaked)
    {
      assert RoleOk(st.owner[f], f, st.lay, st.t, st.boot, st.leaked);
    }
  }

  lemma LaunchIsGood(mem0: Mem, owner0: Owners, mem1: Mem, owner1: Owners, mem: Mem, owner: Owners, lay: Layout,
                     bases: seq<nat>, boot: nat, c: nat, p': Proc, img: seq<byte>, at: nat, res: Loaded, lost: int)
    requires var t := NoProcs();
      && Forest(mem0, owner0) && State(mem0, owner0, lay, t, 1, true, bases, boot, {}).Good()
      && c < MAX_PROCS && 0 <= p'.root && 0 <= p'.kstack < TOTAL_PAGES && res.Running?
      && p' == ExecPcb(NewPcb(t[c], 1, p'.root, p'.kstack), p'.root, res)
    requires NewProcess(mem0, owner0, mem1, owner1, p'.root, p'.kstack, c) && |owner| == TOTAL_PAGES
    requires |bases| == MAX_PROCS && -1 <= lost < TOTAL_PAGES
    requires TreeGrowth(mem1, owner1, mem, Found(owner, lost), p'.root)
    requires lost != -1 ==> owner[lost] == Lost && owner1[lost] == Free
    requires lay.Valid() && (Magic(img, at) == ELF_NUM ==> GoodImage(img, at))
    requires ProgramIn(mem, lay, p'.root, img, at, res, lost)
    ensures State(mem, owner, lay, NoProcs()[c := p'.(state := RUNNING)], 2, true, bases[c := res.heapBreak], boot,
                  {}).Good()
  {
    hide State.Good, Forest, ProgramIn, GoodImage, SpaceOk, Magic, TreeGrowth, NewProcess, Found;
    var t, all := NoProcs(), Found(owner, lost);
    NewProcessGrows(mem0, owner0, mem1, owner1, mem, all, p'.root, p'.kstack, c);
    NewcomerRoot(mem0, owner0, mem, all, p'.root, p'.kstack, c);
    ExecFits(mem, all, lay, p'.root, img, at, res, lost);
    SpawnKeepsGood(State(mem0, owner0, lay, t, 1, true, bases, boot, {}), mem, all, c, p', res.heapBreak);
    var st := State(mem, all, lay, t[c := p'], 2, true, bases[c := res.heapBreak], boot, {});
    PicksUp(st, c);
    assert t[c := p'][c := p'.(state := RUNNING)] == t[c := p'.(state := RUNNING)];
    FoundAgain(owner, lost);
    if lost != -1 { LostKeepsGood(st.(t := t[c := p'.(state := RUNNING)]), lost); }
  }

  lemma FoundAgain(owner: Owners, lost: int)
    requires |owner| == TOTAL_PAGES && -1 <= lost < TOTAL_PAGES && (lost != -1 ==> owner[lost] == Lost)
    ensures if lost == -1 then Found(owner, lost) == owner
            else IsFresh(Found(owner, lost), lost) && Found(owner, lost)[lost := Lost] == owner
  {
  }

  /**
    The PCB of a process that has just been made and loaded: no register but the program counter and the
    stack pointers is set, descriptors 0 to 2 are the console, and all others are closed.
   */
  ghost predicate JustLoaded(p: Proc, res: Loaded)
    requires res.Running?
  {
    && p.kstack >= 0 && |p.files| == 16 && p.brk == res.heapBreak && p.max == res.heapMax
    && p.tf == TrapFrame(0, 0, 0, 0, res.sepc, res.sp, 0x8000_0000 + 0x1000 * (p.kstack + 1), [])
    && forall fd | 0 <= fd < 16 :: p.files[fd].kind == if fd < 3 then ConsoleFile else Closed
  }

  lemma FirstPcb(c: nat, p: Proc, res: Loaded)
    requires c < MAX_PROCS && res.Running? && 0 <= p.root && 0 <= p.kstack < TOTAL_PAGES
    requires p == NewPcb(NoProcs()[c], 1, p.root, p.kstack)
    ensures JustLoaded(ExecPcb(p, p.root, res).(state := RUNNING), res)
  {
  }

  /** load_elf for the first process. */
  method LoadFirst(vm: AddressSpaces, lay: Layout, ghost bases: seq<nat>, ghost boot: nat, ghost c: nat, p: Proc,
                   img: seq<byte>, at: nat, ghost mem0: Mem, ghost owner0: Owners)
    returns (ok: bool, res: Loaded, ghost lost: int)
    requires vm.Valid() && Forest(mem0, owner0) && State(mem0, owner0, lay, NoProcs(), 1, true, bases, boot, {}).Good()
    requires c < MAX_PROCS && 0 <= p.root && 0 <= p.kstack < TOTAL_PAGES
    requires p == NewPcb(NoProcs()[c], 1, p.root, p.kstack)
    requires NewProcess(mem0, owner0, vm.mem, vm.owner, p.root, p.kstack, c) && KernelOnly(vm.mem, lay, p.root)
    requires lay.Valid() && |bases| == MAX_PROCS && (Magic(img, at) == ELF_NUM ==> GoodImage(img, at))
    requires Tables(vm.owner, p.root) == KernelTables(lay)
    modifies vm`mem, vm`owner, vm.pmm.bitmap
    ensures vm.Valid() && (ok ==> res.Running? && ProgramIn(vm.mem, lay, p.root, img, at, res, lost))
    ensures ok <==> Magic(img, at) == ELF_NUM && |FreeFrames(old(vm.owner))| >= ProgramFrames(lay, img, at)
    ensures ok ==> (lost == -1 <==> |FreeFrames(old(vm.owner))| > ProgramFrames(lay, img, at))
    ensures ok ==>
      if lost == -1 then |FreeFrames(old(vm.owner))| == |FreeFrames(vm.owner)| + ProgramFrames(lay, img, at) + 1
                    else 0 <= lost < |vm.owner| && vm.owner[lost] == Lost && |FreeFrames(vm.owner)| == 0
    ensures ok ==>
      State(vm.mem, vm.owner, lay, NoProcs()[c := ExecPcb(p, p.root, res).(state := RUNNING)], 2, true,
            bases[c := res.heapBreak], boot, {}).Good()
  {
    hide State.Good, Forest, NewProcess, KernelOnly, ProgramIn, GoodImage, Magic, TreeGrowth, FreeFrames, Tables,
         KernelTables, ProgramFrames, NoStackFrame, NoStackTables, ProgramSpent, NoFree;
    NewcomerRoot(mem0, owner0, vm.mem, vm.owner, p.root, p.kstack, c);
    ghost var mem1, owner1 := vm.mem, vm.owner;
    res, lost := LoadElf(vm, lay, p.root, img, at);
    if Magic(img, at) == ELF_NUM { ProgramNeeds(owner1, vm.owner, p.root, lay, img, at); }
    NoFreeIsZero(vm.owner);
    ok := res.Running?;
    if ok {
      LaunchIsGood(mem0, owner0, mem1, owner1, vm.mem, vm.owner, lay, bases, boot, c, ExecPcb(p, p.root, res), img, at,
                   res, lost);
    }
  }
}
