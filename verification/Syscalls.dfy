/** What the system calls do and when they fail, as statements about the moments before and after. */
module Syscalls {
  import opened Sv39
  import opened Platform
  import opened PageTrees
  import opened Budget
  import opened Vmm
  import opened Elf
  import opened Spaces
  import opened Procs
  import opened Invariants
  import opened Steps
  import opened Bytes
  import opened UserMem
  import opened Isolation
  import Ramdisk

  /** The processes and their memory at one moment. */
  datatype Shot = Shot(t: Table, pid: nat, mem: Mem, owner: Owners)

  /** Every role in use stays, and every frame that was free is in a tree `r` that nobody has. */
  ghost predicate TreeDropped(owner: Owners, owner': Owners, r: int) {
    && |owner| == |owner'| && IsFresh(owner, r) && IsRoot(owner', r)
    && forall f {:trigger owner'[f]} | 0 <= f < |owner| ::
         if owner[f] != Free then owner'[f] == owner[f] else owner'[f].Node? && owner'[f].root == r
  }

  /**
    What an alloc_proc that gives -1 leaves behind: nothing without a slot or any frame, otherwise the tree
    it built.
   */
  ghost predicate Abandoned(t: Table, owner: Owners, owner': Owners, r: int) {
    if Full(t) || NoFree(owner) then r == -1 && owner' == owner else TreeDropped(owner, owner', r)
  }

  /** The trees that were dropped, with one more if `r` is one. */
  function WithTree(leaked: set<nat>, r: int): set<nat> { if r < 0 then leaked else leaked + {r} }

  lemma TreeTakesAll(mem: Mem, owner: Owners, mem': Mem, owner': Owners, r: nat)
    requires NewTree(mem, owner, mem', owner', r) && IsFresh(owner, r) && IsRoot(owner', r) && NoFree(owner')
    ensures TreeDropped(owner, owner', r)
  {
  }

  /**
    A fork that is refused: E_AGAIN for the process that asked, every other one as before, and of the
    frames nothing, or all that were free to the tree `r` that is dropped.
   */
  ghost predicate Denied(lay: Layout, a: Shot, b: Shot, who: nat, r: int) {
    && |a.t| == |b.t| == MAX_PROCS && who < MAX_PROCS && AllocRefused(lay, a.t, a.owner)
    && b.pid == (if Full(a.t) then a.pid else a.pid + 1) && b.t[who] == WithA0(a.t[who], Err(E_AGAIN))
    && (forall i {:trigger b.t[i]} | 0 <= i < MAX_PROCS && i != who ::
      if a.t[i].Live() then b.t[i] == a.t[i] else !b.t[i].Live())
    && UsedKeep(a.mem, a.owner, b.mem) && Abandoned(a.t, a.owner, b.owner, r)
  }

  /** What fork gives: one more process, a copy of the current one; frames that were in use are not touched. */
  ghost predicate Forked(lay: Layout, a: Shot, b: Shot, who: nat, child: nat) {
    && |a.t| == |b.t| == MAX_PROCS && who < MAX_PROCS && a.t[who].root >= 0
    && child < MAX_PROCS && !a.t[child].Live() && b.pid == a.pid + 1
    && 0 <= b.t[child].root && 0 <= b.t[child].kstack < TOTAL_PAGES
    && b.t == a.t[child := ForkPcb(a.t[who], a.pid, b.t[child].root, b.t[child].kstack)]
                 [who := WithA0(a.t[who], a.pid % WORD_LIMIT)]
    && NewProcess(a.mem, a.owner, b.mem, b.owner, b.t[child].root, b.t[child].kstack, child)
    && ForkedFrom(a.mem, a.owner, b.mem, lay, a.t[who].root, b.t[child].root)
  }

  /**
    The two PCBs after a fork. The child starts with the parent's registers but for a0, which is 0
    where the parent finds the child's pid, and its own kernel stack; its files and heap bounds are the
    parent's, and the parent is its parent.
   */
  lemma ForkedRegisters(lay: Layout, a: Shot, b: Shot, who: nat, child: nat)
    requires Forked(lay, a, b, who, child) && a.t[who].Live()
    ensures child != who
    ensures var (p, c) := (a.t[who], b.t[child]);
      && c.tf ==
           TrapFrame(0, p.tf.a1, p.tf.a2, p.tf.a7, p.tf.sepc, p.tf.sp, 0x8000_0000 + 0x1000 * (c.kstack + 1), p.tf.rest)
      && c.pid == a.pid && c.parent == p.pid && c.state == READY && c.chan == NoChan
      && c.brk == p.brk && c.max == p.max && c.files == p.files
      && b.t[who] ==
           p.(tf := TrapFrame(c.pid % WORD_LIMIT, p.tf.a1, p.tf.a2, p.tf.a7, p.tf.sepc, p.tf.sp, p.tf.kernelSp,
                                        p.tf.rest))
    ensures forall i {:trigger b.t[i]} | 0 <= i < MAX_PROCS && i != who && i != child :: b.t[i] == a.t[i]
  {
    hide NewProcess, ForkedFrom;
  }

  /**
    What exec gives: the new program in a new tree, the old tree's frames free, and nobody else's
    touched. The program is without its stack page exactly when no more than ExecFrames frames
    were free, and then one frame is lost.
   */
  ghost predicate Execed(lay: Layout, img: seq<byte>, a: Shot, b: Shot, who: nat, at: nat, res: Loaded, lost: int) {
    && |a.t| == |b.t| == MAX_PROCS && who < MAX_PROCS && a.t[who].root >= 0 && b.t[who].root >= 0
    && res.Running? && b.t == a.t[who := ExecPcb(a.t[who], b.t[who].root, res)]
    && Replaced(a.owner, b.owner, a.t[who].root, b.t[who].root, lost)
    && (lost == -1 <==> |FreeFrames(a.owner)| > ExecFrames(lay, img, at))
    && |a.mem| == |b.mem| == TOTAL_PAGES
    && (forall f {:trigger b.mem[f]} | 0 <= f < TOTAL_PAGES && a.owner[f] != Free :: b.mem[f] == a.mem[f])
    && ProgramIn(b.mem, lay, b.t[who].root, img, at, res, lost)
  }

  lemma ExecSparesOthers(lay: Layout, img: seq<byte>, a: Shot, b: Shot, who: nat, at: nat, res: Loaded, lost: int,
                         pid: nat)
    requires Execed(lay, img, a, b, who, at, res, lost)
    ensures Bystanders(a.t, b.t, who, pid) && OthersKeep(a.mem, a.owner, b.mem, a.t[who].root)
    ensures RolesStay(a.t, a.owner, b.owner, who)
  {
    hide ProgramIn, ExecFrames, FreeFrames;
  }

  /** What sbrk gives: more of the own tree, and with `grown` the pages up to the new break. */
  ghost predicate Sbrked(a: Shot, b: Shot, who: nat, grown: bool) {
    && |a.t| == |b.t| == MAX_PROCS && who < MAX_PROCS && a.t[who].root >= 0 && a.t[who].max == HEAP_MAX
    && var p := a.t[who];
       && TreeGrowth(a.mem, a.owner, b.mem, b.owner, p.root) && (grown <==> !CannotGrow(p, a.owner))
       && if grown then
            && 0 < p.tf.a0 < WORD_LIMIT / 2 && p.brk + p.tf.a0 <= p.max
            && Grown(a.mem, b.mem, a.owner, p.root, PageCeil(p.brk), PageCeil(p.brk + p.tf.a0))
            && b.t == a.t[who := Heaped(p, p.brk + p.tf.a0)]
          else
            SameLeaves(a.mem, b.mem, a.owner) && b.t == a.t[who := WithA0(p, NoGrowth(p))]
  }

  /** What wait gives once child `z` has ended: its pid, its slot and all of its frames. */
  ghost predicate Waited(a: Shot, b: Shot, who: nat, z: nat) {
    && |a.t| == MAX_PROCS && who < MAX_PROCS && z < MAX_PROCS && z != who && IsChild(a.t, z, a.t[who].pid)
    && a.t[z].state == ZOMBIE
    && (forall j: nat | j < z && IsChild(a.t, j, a.t[who].pid) :: a.t[j].state != ZOMBIE)
    && b.t == a.t[z := Scrubbed(a.t[z])][who := WithA0(a.t[who], a.t[z].pid % WORD_LIMIT)]
    && 0 <= a.t[z].kstack < |a.owner| && 0 <= a.t[z].root
    && b.owner == WithoutTree(a.owner[a.t[z].kstack := Free], a.t[z].root)
  }

  /** Whatever exec may be asked to load is a good image if it is an ELF file at all. */
  ghost predicate GoodDisk(img: seq<byte>) {
    forall i {:trigger Ramdisk.OffsetOf(img, i)} | 0 <= i < Ramdisk.Count(img) ::
      Magic(img, Ramdisk.OffsetOf(img, i)) == ELF_NUM ==> GoodImage(img, Ramdisk.OffsetOf(img, i))
  }

  /** Every slot is taken. */
  ghost predicate Full(t: Table) { forall i | 0 <= i < |t| :: t[i].Live() }

  /** alloc_proc's -1: no slot, no frame at all, or just the frames of a kernel tree and none for the stack. */
  ghost predicate AllocRefused(lay: Layout, t: Table, owner: Owners) {
    Full(t) || |FreeFrames(owner)| == 0 || |FreeFrames(owner)| == SpaceFrames(lay)
  }

  /** Its panic, in vmm_map_kernel: some frames, but fewer than a kernel tree takes. */
  ghost predicate AllocPanics(lay: Layout, t: Table, owner: Owners) {
    !Full(t) && 0 < |FreeFrames(owner)| < SpaceFrames(lay)
  }

  /** What a fork of the process with root `r` takes: a kernel tree, a kernel stack, and the copy. */
  ghost function ForkFrames(lay: Layout, owner: Owners, r: nat): nat {
    SpaceFrames(lay) + 1 + CopyFrames(lay, owner, r)
  }

  /** Fork's panics, in vmm_map_kernel and in vmm_copy_uvm. */
  ghost predicate ForkPanics(lay: Layout, t: Table, owner: Owners, r: nat) {
    !AllocRefused(lay, t, owner) && |FreeFrames(owner)| < ForkFrames(lay, owner, r)
  }

  /** Fewer frames are free than the new pages of a growing heap and the tables missing for them. */
  ghost predicate TooFew(owner: Owners, r: nat, oldBreak: nat, newBreak: nat)
    requires oldBreak <= newBreak <= HEAP_MAX
  {
    CeilIsMonotone(oldBreak, newBreak);
    Short(owner, r, RangeTables(PageCeil(oldBreak), PageCeil(newBreak)), PageCeil(newBreak) - PageCeil(oldBreak))
  }

  /** When sbrk leaves the heap as it is. */
  ghost predicate CannotGrow(p: Proc, owner: Owners)
    requires p.root >= 0 && p.max <= HEAP_MAX
  {
    p.tf.a0 == 0 || p.tf.a0 >= WORD_LIMIT / 2 || p.brk + p.tf.a0 > p.max ||
      TooFew(owner, p.root, p.brk, p.brk + p.tf.a0)
  }

  lemma StackSpent(owner: Owners, k: nat, c: nat, r: nat)
    requires k < |owner| && owner[k] == Free
    ensures Tables(owner[k := InFlight][k := Stack(c)], r) == Tables(owner, r)
    ensures |FreeFrames(owner)| == |FreeFrames(owner[k := InFlight][k := Stack(c)])| + 1
  {
    assert owner[k := InFlight][k := Stack(c)] == owner[k := Stack(c)];
    TakeFrame(owner, k, Stack(c));
    OtherRole(owner, k, Stack(c), r);
  }

  /** The frames above the allocator's bitmap. */
  function FramesAtBoot(lay: Layout): int { TOTAL_PAGES - Protected(lay) }

  /**
    What kmain takes of them: two kernel trees, a kernel stack, and the program but for the table above its
    stack page.
   */
  function BootFrames(lay: Layout, img: seq<byte>, entry: nat): nat {
    2 * SpaceFrames(lay) + 1 + ProgramFrames(lay, img, Ramdisk.OffsetOf(img, entry))
  }

  /** The RAMDISK has init.elf as its entry `entry`, it is an ELF file, and the machine has the frames for it. */
  ghost predicate Bootable(lay: Layout, img: seq<byte>, entry: int) {
    && Ramdisk.IsLookup(img, INIT_ELF, entry) && entry >= 0 && Magic(img, Ramdisk.OffsetOf(img, entry)) == ELF_NUM
    && BootFrames(lay, img, entry) <= FramesAtBoot(lay)
  }

  /** "init.elf" */
  const INIT_ELF: seq<byte> := [105, 110, 105, 116, 46, 101, 108, 102]

  // ---- errno.h ----

  const E_NOENT := 1
  const E_BADF := 2
  const E_FAULT := 3
  const E_NOMEM := 4
  const E_PERM := 5
  const E_AGAIN := 6

  /** The longest file name, with its NUL, that a program may pass. */
  const NAME_MAX := 256

  /** What sbrk returns when it does not grow the heap. */
  function NoGrowth(p: Proc): Word {
    if p.tf.a0 == 0 && p.brk < WORD_LIMIT then p.brk else Err(if p.tf.a0 < WORD_LIMIT / 2 then E_NOMEM else E_PERM)
  }

  /** A PCB with a new break, returning the old one. */
  function Heaped(p: Proc, brk: nat): Proc { WithA0(p.(brk := brk), p.brk % WORD_LIMIT) }

  /** A 64-bit register converted to a C int. */
  function AsInt(w: Word): (i: int)
    ensures -0x8000_0000 <= i < 0x8000_0000
  {
    if w % 0x1_0000_0000 < 0x8000_0000 then w % 0x1_0000_0000 else w % 0x1_0000_0000 - 0x1_0000_0000
  }

  predicate IsOpen(files: seq<File>, fd: int)
    requires |files| == FD_MAX
  {
    0 <= fd < FD_MAX && files[fd].kind != Closed
  }

  /** The first closed descriptor after stdin, stdout and stderr, or -1. */
  ghost predicate IsFreeFd(files: seq<File>, fd: int)
    requires |files| == FD_MAX
  {
    if fd == -1 then forall i | 3 <= i < FD_MAX :: files[i].kind != Closed
    else 3 <= fd < FD_MAX && files[fd].kind == Closed && forall i | 3 <= i < fd :: files[i].kind != Closed
  }

  function WithFile(p: Proc, fd: nat, file: File): Proc
    requires fd < |p.files|
  {
    p.(files := p.files[fd := file])
  }

  /** What a read of a RAMDISK file does: the next bytes of the file in the buffer, and the file as far further. */
  ghost predicate FileRead(img: seq<byte>, t: Table, mem: Mem, t': Table, mem': Mem, who: nat, fd: nat) {
    && who < |t| && fd < |t[who].files| && t[who].root >= 0 && t[who].files[fd].offset <= t[who].files[fd].size
    && var (p, file) := (t[who], t[who].files[fd]);
       var n := Ramdisk.ReadSize(file.offset, file.size, p.tf.a2 % Ramdisk.LIMIT32);
       && n < WORD_LIMIT && mem' == StoreBytes(mem, p.root, p.tf.a1, Slice(img, file.data + file.offset, n))
       && t' == t[who := WithA0(WithFile(p, fd, file.(offset := file.offset + n)), n)]
  }

  /** What opening RAMDISK entry `entry` as descriptor `fd` does. */
  ghost predicate Opened(img: seq<byte>, t: Table, t': Table, who: nat, entry: nat, fd: nat) {
    && who < |t| && 3 <= fd < |t[who].files| && fd < WORD_LIMIT
    && t' == t[who := WithA0(WithFile(t[who], fd, FileOf(img, entry)), fd)]
  }

  /** A read at the end of a file delivers nothing and moves nothing. */
  lemma AtEnd(mem: Mem, img: seq<byte>, p: Proc, fd: nat)
    requires fd < |p.files| && p.root >= 0
    ensures var file := p.files[fd];
      && WithFile(p, fd, file.(offset := file.offset + 0)) == p
      && StoreBytes(mem, p.root, p.tf.a1, Slice(img, file.data + file.offset, 0)) == mem
  {
    assert Slice(img, p.files[fd].data + p.files[fd].offset, 0) == [];
  }

  /** A RAMDISK entry just opened. */
  function FileOf(img: seq<byte>, entry: nat): File {
    File(RamdiskFile, 0, Ramdisk.SizeOf(img, entry), Ramdisk.OffsetOf(img, entry))
  }

  /** A trap's registers in a process's frame. */
  function WithRegs(p: Proc, regs: TrapFrame): Proc { p.(tf := regs.(kernelSp := p.tf.kernelSp)) }

  lemma AdvanceRewind(regs: TrapFrame)
    ensures regs.Advanced().Rewound() == regs
  {
  }

  /** The negative error code as the register holds it. */
  function Err(code: nat): Word
    requires 0 < code <= E_AGAIN
  {
    WORD_LIMIT - code
  }
}
