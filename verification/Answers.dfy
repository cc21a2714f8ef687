/**
  What a program finds in a0 after each system call that returns, and what the call did for it, in the
  numbers of kernel/include/errno.h and the registers of the call.
 */
module Answers {
  import opened Sv39
  import opened Platform
  import opened Bytes
  import opened PageTrees
  import opened Vmm
  import opened Elf
  import opened Spaces
  import opened Procs
  import opened Steps
  import opened Console
  import opened ConsoleReads
  import opened UserMem
  import opened Isolation
  import opened Kernel
  import opened Syscalls
  import Ramdisk

  /** The register value of -n. */
  function Minus(n: nat): Word
    requires 0 < n < 10
  {
    0x1_0000_0000_0000_0000 - n
  }

  /** What of its PCB a process keeps over any call, and over all calls but those that are about it. */
  predicate SamePcb(p: Proc, p': Proc) {
    && p'.pid == p.pid && p'.parent == p.parent && p'.kstack == p.kstack && p'.max == p.max && p'.chan == p.chan
    && (p.tf.a7 != 4 ==> p'.root == p.root) && (p.tf.a7 != 4 && p.tf.a7 != 6 ==> p'.brk == p.brk)
    && (p.tf.a7 != 7 && p.tf.a7 != 8 && p.tf.a7 != 10 ==> p'.files == p.files)
  }

  /** The answer to the call in a7, by the state `w` in which the kernel found it. */
  ghost predicate Answer(m: Machine, w: Was, who: nat)
    requires w.Fits(who) && who < |m.procs|
    reads m, m.vm, m.vm.pmm.bitmap, m.ring
  {
    var (p, a) := (w.t[who], m.procs[who].tf.a0);
    SamePcb(p, m.procs[who]) &&
    match p.tf.a7
    case 1 => a == 0 && m.tty == w.tty + [(p.tf.a0 % 256) as byte]
    case 3 => if AllocRefused(m.lay, w.t, w.owner) then a == Minus(6) else ForkAnswer(m, w, who, a)
    case 4 => exists entry: int {:trigger m.NamedFile(w.mem, p.root, p.tf.a0, entry)} ::
      && m.NamedFile(w.mem, p.root, p.tf.a0, entry)
      && a == if entry == -1 then Minus(3) else if entry < 0 then Minus(1) else p.tf.a0
    case 5 => WaitAnswer(m, w, who, a)
    case 6 => SbrkAnswer(p, w.owner, m.procs[who], a)
    case 7 => exists entry: int :: OpenAnswer(m, w, m.procs[who], who, entry, a)
    case 8 => ReadAnswer(m, w, m.procs[who], who, a)
    case 9 => WriteAnswer(m, w, who, a)
    case 10 =>
      if p.tf.a0 % 0x1_0000_0000 < 16 && p.files[p.tf.a0 % 0x1_0000_0000].kind != Closed then
        a == 0 && m.procs[who].files == p.files[p.tf.a0 % 0x1_0000_0000 := CLOSED]
      else a == Minus(2) && m.procs[who].files == p.files
    case _ => false
  }

  /** The parent finds the pid of a new process, which finds 0 and has it for its parent. */
  ghost predicate ForkAnswer(m: Machine, w: Was, who: nat, a: Word)
    requires who < |w.t|
    reads m
  {
    exists c: nat {:trigger m.procs[c]} ::
      && c < |w.t| && c < |m.procs| && !w.t[c].Live() && a == m.procs[c].pid % WORD_LIMIT && m.procs[c].pid == w.pid
      && m.procs[c].tf.a0 == 0 && m.procs[c].tf.sepc == w.t[who].tf.sepc && m.procs[c].parent == w.t[who].pid
  }

  /** The pid of the first child that has ended, whose slot is free now; without children the error. */
  ghost predicate WaitAnswer(m: Machine, w: Was, who: nat, a: Word)
    requires who < |w.t|
    reads m
  {
    if exists z: nat {:trigger EndedChild(w.t, z, who)} :: EndedChild(w.t, z, who) then
      exists z: nat {:trigger EndedChild(w.t, z, who)} ::
        && EndedChild(w.t, z, who)
        && (forall y: nat {:trigger EndedChild(w.t, y, who)} | y < z :: !EndedChild(w.t, y, who))
        && z < |m.procs| && a == w.t[z].pid % WORD_LIMIT
        && m.procs[z] == Proc(0, UNUSED, -1, -1, w.t[z].tf, 0, 0, 0, NoChan, seq(16, _ => CLOSED))
    else
      && a == Minus(1)
      && forall c: nat {:trigger IsChild(w.t, c, w.t[who].pid)} | c < |w.t| :: !IsChild(w.t, c, w.t[who].pid)
  }

  /** The old break, and the heap grown by a0; or the heap as it was. */
  ghost predicate SbrkAnswer(p: Proc, owner: Owners, p': Proc, a: Word)
    requires p.root >= 0 && p.max == HEAP_MAX
  {
    if p.tf.a0 == 0 then a == p.brk && p'.brk == p.brk
    else if p.tf.a0 >= 0x8000_0000_0000_0000 then a == Minus(5) && p'.brk == p.brk
    else
      if p.brk + p.tf.a0 > HEAP_MAX || TooFew(owner, p.root, p.brk, p.brk + p.tf.a0) then
        a == Minus(4) && p'.brk == p.brk
    else a == p.brk && p'.brk == p.brk + p.tf.a0
  }

  /** The lowest free descriptor from 3 up, now at the beginning of RAMDISK entry `entry`; or the error. */
  ghost predicate OpenAnswer(m: Machine, w: Was, p': Proc, who: nat, entry: int, a: Word)
    requires w.Fits(who)
    reads m
  {
    var p := w.t[who];
    if entry == -1 then m.NamedFile(w.mem, p.root, p.tf.a0, -1) && a == Minus(3) && p'.files == p.files
    else if forall i | 3 <= i < 16 :: p.files[i].kind != Closed then a == Minus(4) && p'.files == p.files
    else
      && m.NamedFile(w.mem, p.root, p.tf.a0, entry)
      && if entry < 0 then a == Minus(1) && p'.files == p.files
         else
           && 3 <= a < 16 && p.files[a].kind == Closed && (forall i | 3 <= i < a :: p.files[i].kind != Closed)
           && p'.files ==
                p.files[a := File(RamdiskFile, 0, Ramdisk.SizeOf(m.img, entry), Ramdisk.OffsetOf(m.img, entry))]
  }

  /** A line of the console, or as much of it as fits; the next bytes of a file; or the error. */
  ghost predicate ReadAnswer(m: Machine, w: Was, p': Proc, who: nat, a: Word)
    requires w.Fits(who)
    reads m, m.vm, m.ring
  {
    var (p, fd, size) := (w.t[who], w.t[who].tf.a0 % 0x1_0000_0000, w.t[who].tf.a2 % 0x1_0000_0000);
    if !Accepts(w.mem, p.root, p.tf.a1, size, PTE_W) then a == Minus(3) && p'.files == p.files
    else if fd >= 16 || p.files[fd].kind == Closed then a == Minus(2) && p'.files == p.files
    else if p.files[fd].kind == ConsoleFile then
      && a == |LineFor(w.ed.Unread(), size)| && p'.files == p.files && m.ring.ed == w.ed.(taken := w.ed.taken + a)
      && m.delivered == w.delivered + LineFor(w.ed.Unread(), size)
    else
      && p.files[fd].offset <= p.files[fd].size
      && a == (if size < p.files[fd].size - p.files[fd].offset then size else p.files[fd].size - p.files[fd].offset)
      && p'.files == p.files[fd := p.files[fd].(offset := p.files[fd].offset + a)]
  }

  /** All of the buffer on the console, or the error. */
  ghost predicate WriteAnswer(m: Machine, w: Was, who: nat, a: Word)
    requires w.Fits(who)
    reads m
  {
    var (p, fd, size) := (w.t[who], w.t[who].tf.a0 % 0x1_0000_0000, w.t[who].tf.a2 % 0x1_0000_0000);
    if !Accepts(w.mem, p.root, p.tf.a1, size, PTE_R) then a == Minus(3) && m.tty == w.tty
    else if fd >= 16 || p.files[fd].kind == Closed then a == Minus(2) && m.tty == w.tty
    else if p.files[fd].kind == ConsoleFile then a == size && m.tty == w.tty + UserBytes(w.mem, p.root, p.tf.a1, size)
    else a == Minus(5) && m.tty == w.tty
  }

  // ---- every call gives its answer ----

  /** Whatever returns to its program returns with its answer. */
  lemma CallAnswers(m: Machine, w: Was, who: nat)
    requires w.Fits(who) && m.SyscallResult(w, who) && m.mode != Halted && m.RestStays(w, w.t[who].tf.a7)
    requires w.t[who].brk <= HEAP_MAX && w.t[who].state == RUNNING
    requires who < |m.procs| && m.procs[who].state == RUNNING
    ensures Answer(m, w, who)
  {
    hide Machine.WaitResult, Machine.ReadResult, Machine.ReadFaults, Machine.ForkResult, Machine.NoFork,
         Machine.ExecResult, Machine.SbrkResult, Machine.OpenResult, Machine.WriteResult, Machine.WriteFaults,
         AllocRefused, ForkPanics, ForkAnswer, WaitAnswer, SbrkAnswer, OpenAnswer, ReadAnswer, WriteAnswer,
         Machine.NamedFile;
    match w.t[who].tf.a7
    case 3 => if AllocRefused(m.lay, w.t, w.owner) { ForkDenied(m, w); } else { ForkAnswers(m, w); }
    case 4 => ExecAnswers(m, w);
    case 5 => WaitAnswers(m, w, who);
    case 6 => SbrkAnswers(m, w);
    case 7 => OpenAnswers(m, w);
    case 8 => ReadAnswers(m, w, who);
    case 9 => WriteAnswers(m, w);
    case 10 => LowDescriptor(w.t[who].tf.a0);
    case _ =>
  }

  /** A register as a C int is a descriptor exactly when its lower half is one. */
  lemma LowDescriptor(r: Word)
    ensures 0 <= AsInt(r) < 16 <==> r % 0x1_0000_0000 < 16
    ensures r % 0x1_0000_0000 < 16 ==> AsInt(r) == r % 0x1_0000_0000
  {
  }

  lemma ForkDenied(m: Machine, w: Was)
    requires w.Fits(m.cur) && m.NoFork(w.t, w.pid, w.mem, w.owner, w.leaked)
    ensures m.cur < |m.procs| && m.procs[m.cur].tf.a0 == Minus(6) && SamePcb(w.t[m.cur], m.procs[m.cur])
  {
    hide AllocRefused, UsedKeep, Abandoned;
  }

  lemma ForkAnswers(m: Machine, w: Was)
    requires w.Fits(m.cur) && w.t[m.cur].state == RUNNING && m.cur < |m.procs|
    requires exists c: nat {:trigger m.ForkResult(c, w.t, w.pid, w.mem, w.owner)} ::
      c < MAX_PROCS && m.ForkResult(c, w.t, w.pid, w.mem, w.owner)
    ensures ForkAnswer(m, w, m.cur, m.procs[m.cur].tf.a0) && SamePcb(w.t[m.cur], m.procs[m.cur])
  {
    hide Forked;
    var c: nat :| c < MAX_PROCS && m.ForkResult(c, w.t, w.pid, w.mem, w.owner);
    var a, b := Shot(w.t, w.pid, w.mem, w.owner), Shot(m.procs, m.nextPid, m.vm.mem, m.vm.owner);
    assert Forked(m.lay, a, b, m.cur, c) && |b.t| == MAX_PROCS && !a.t[c].Live() by {
      assert m.ForkResult(c, w.t, w.pid, w.mem, w.owner);
      ForkIsForked(m.lay, a, b, m.cur, c);
    }
    ForkedRegisters(m.lay, a, b, m.cur, c);
    assert m.procs[c] == b.t[c];
  }

  lemma ForkIsForked(lay: Layout, a: Shot, b: Shot, who: nat, c: nat)
    requires Forked(lay, a, b, who, c)
    ensures |b.t| == |a.t| == MAX_PROCS && c < |a.t| && !a.t[c].Live()
  {
    hide NewProcess, ForkedFrom;
  }

  lemma ExecAnswers(m: Machine, w: Was)
    requires w.Fits(m.cur) && m.mode != Halted && exists entry, res, lost :: m.ExecResult(w, entry, res, lost)
    requires w.t[m.cur].tf.a7 == 4
    ensures m.cur < |m.procs| && SamePcb(w.t[m.cur], m.procs[m.cur])
    ensures exists entry: int {:trigger m.NamedFile(w.mem, w.t[m.cur].root, w.t[m.cur].tf.a0, entry)} ::
      && m.NamedFile(w.mem, w.t[m.cur].root, w.t[m.cur].tf.a0, entry)
      && m.procs[m.cur].tf.a0 == if entry == -1 then Minus(3) else if entry < 0 then Minus(1) else w.t[m.cur].tf.a0
  {
    hide Machine.NamedFile, Machine.NoExec, StringFaults, Replaced, ExecFrames, ImageIn, Magic, PageHolds, MaxEnd;
    var entry, res, lost :| m.ExecResult(w, entry, res, lost);
    assert m.NamedFile(w.mem, w.t[m.cur].root, w.t[m.cur].tf.a0, entry);
  }

  lemma WaitAnswers(m: Machine, w: Was, who: nat)
    requires w.Fits(who) && w.t[who].state == RUNNING && who < |m.procs| && m.procs[who].state == RUNNING
    requires exists z :: m.WaitResult(z, w.t, who, w.owner)
    ensures WaitAnswer(m, w, who, m.procs[who].tf.a0) && SamePcb(w.t[who], m.procs[who])
  {
    hide WithoutTree;
    var z :| m.WaitResult(z, w.t, who, w.owner);
    forall y: nat {:trigger EndedChild(w.t, y, who)} | (z >= 0 ==> y < z) ensures !EndedChild(w.t, y, who) {
      assert IsChild(w.t, y, w.t[who].pid) || !EndedChild(w.t, y, who);
    }
    if z >= 0 { assert EndedChild(w.t, z, who); }
  }

  lemma SbrkAnswers(m: Machine, w: Was)
    requires w.Fits(m.cur) && w.t[m.cur].brk <= HEAP_MAX && m.cur < |m.procs|
    requires exists grown :: m.SbrkResult(w.t, w.mem, w.owner, grown)
    ensures SbrkAnswer(w.t[m.cur], w.owner, m.procs[m.cur], m.procs[m.cur].tf.a0)
    ensures w.t[m.cur].tf.a7 == 6 ==> SamePcb(w.t[m.cur], m.procs[m.cur])
  {
    hide TreeGrowth, Grown, SameLeaves, TooFew;
    var grown :| m.SbrkResult(w.t, w.mem, w.owner, grown);
  }

  lemma OpenAnswers(m: Machine, w: Was)
    requires w.Fits(m.cur) && m.mode != Halted && m.cur < |m.procs| && exists entry, fd :: m.OpenResult(w, entry, fd)
    ensures exists entry: int :: OpenAnswer(m, w, m.procs[m.cur], m.cur, entry, m.procs[m.cur].tf.a0)
    ensures w.t[m.cur].tf.a7 == 7 ==> SamePcb(w.t[m.cur], m.procs[m.cur])
  {
    hide UserString, StringFaults, Ramdisk.IsLookup, Ramdisk.SizeOf, Ramdisk.OffsetOf;
    var entry, fd :| m.OpenResult(w, entry, fd);
    assert OpenAnswer(m, w, m.procs[m.cur], m.cur, entry, m.procs[m.cur].tf.a0);
  }

  lemma ReadAnswers(m: Machine, w: Was, who: nat)
    requires w.Fits(who) && w.t[who].state == RUNNING && who < |m.procs| && m.procs[who].state == RUNNING
    requires exists code :: m.ReadResult(w.t, who, w.mem, w.ed, w.delivered, code)
    ensures ReadAnswer(m, w, m.procs[who], who, m.procs[who].tf.a0)
    ensures w.t[who].tf.a7 == 8 ==> SamePcb(w.t[who], m.procs[who])
  {
    hide Accepts, StoreBytes, Slice, LineFor, Editor.Unread;
    var code :| m.ReadResult(w.t, who, w.mem, w.ed, w.delivered, code);
    LowDescriptor(w.t[who].tf.a0);
  }

  lemma WriteAnswers(m: Machine, w: Was)
    requires w.Fits(m.cur) && m.cur < |m.procs| && m.vm.mem == w.mem && exists code :: m.WriteResult(w.t, w.tty, code)
    ensures WriteAnswer(m, w, m.cur, m.procs[m.cur].tf.a0) && SamePcb(w.t[m.cur], m.procs[m.cur])
  {
    hide Accepts, UserBytes;
    var code :| m.WriteResult(w.t, w.tty, code);
    LowDescriptor(w.t[m.cur].tf.a0);
  }
}
