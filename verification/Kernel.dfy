/**
  The kernel between traps: process table, scheduler, interrupts and system calls of
  kernel/proc/process.c and kernel/arch/riscv/trap_handler.c, over the memory of Vmm and the
  console ring of Uart. The kernel is not preempted, so each trap is one step.
 */
module Kernel {
  import opened Sv39
  import opened Platform
  import opened PageTrees
  import opened Budget
  import opened Vmm
  import opened Elf
  import opened Mmu
  import opened Spaces
  import opened Procs
  import opened Invariants
  import opened Steps
  import opened Bytes
  import opened Console
  import opened UserMem
  import opened ConsoleReads
  import opened Isolation
  import opened Syscalls
  import Uart
  import Ramdisk

  /** `Idle` is inside schedule's loop, waiting for an interrupt; `Halted` is a panic, `Off` the shutdown. */
  datatype Mode = UserMode | Idle | Halted | Off

  /** What can happen to the hart. The registers are the program's at that moment. */
  datatype Happening =
    | Calls(regs: TrapFrame)
    | Faults(regs: TrapFrame)
    | Writes(va: nat, b: byte, regs: TrapFrame)
    | Ticks(regs: TrapFrame)
    | Types(regs: TrapFrame, bytes: seq<byte>)
    | Strays

  /** The state a call started from. */
  datatype Was = Was(t: Table, pid: nat, mem: Mem, owner: Owners, leaked: set<nat>, tty: seq<byte>, ed: Editor,
                     delivered: seq<byte>) {
    predicate Fits(who: nat) {
      && |t| == MAX_PROCS && who < MAX_PROCS && t[who].root >= 0 && |t[who].files| == FD_MAX && t[who].max == HEAP_MAX
      && ed.taken <= |ed.committed|
    }
  }

  class Machine {
    const vm: AddressSpaces
    const ring: Uart.Ring
    const lay: Layout
    const img: seq<byte>          // the RAMDISK
    var procs: Table
    var cur: nat                  // current_proc
    var nextPid: nat
    var mode: Mode
    var scratch: nat              // sscratch: the slot whose trap frame the next trap fills
    var tty: seq<byte>            // what programs wrote to the console
    ghost var bases: seq<nat>     // where each slot's heap begins
    ghost var boot: nat           // root of the tree kmain built
    ghost var leaked: set<nat>    // trees dropped by alloc_proc for want of a kernel stack
    ghost var log: seq<Pick>      // the scheduler's picks
    ghost var delivered: seq<byte> // everything console reads have returned

    ghost function Whole(): State
      reads this, vm, ring
    {
      State(vm.mem, vm.owner, lay, procs, nextPid, NoInput(ring.ed), bases, boot, leaked)
    }

    /** Process identities, sleepers, memory and ledger. */
    ghost predicate Sound()
      reads this, vm, vm.pmm.bitmap, ring, ring.rxBuf
    {
      && vm.Valid() && ring.Valid() && lay.Valid() && GoodDisk(img)
      && delivered == ring.ed.committed[..ring.ed.taken]
      && Whole().Good()
      && |procs| == MAX_PROCS
    }

    /** And the current process's claim on satp. */
    ghost predicate Core()
      reads this, vm, vm.pmm.bitmap, ring, ring.rxBuf
    {
      && Sound() && cur < MAX_PROCS && procs[cur].Live() && vm.satp == procs[cur].root && OnlyRuns(procs, cur)
      && LogOk(log, cur)
    }

    /**
      Back in user mode the one running process is the current one, its trap frame is the next
      trap's and satp is its root; idling, nothing can run and something is blocked; off, every
      process has ended.
     */
    ghost predicate Inv()
      reads this, vm, vm.pmm.bitmap, ring, ring.rxBuf
    {
      match mode
      case UserMode => Core() && procs[cur].state == RUNNING && scratch == cur
      case Idle => Core() && NothingRuns(procs) && exists i :: 0 <= i < MAX_PROCS && procs[i].state == BLOCKED
      case Off => NobodyAlive()
      case Halted => true
    }

    ghost predicate NobodyAlive()
      reads this
    {
      |procs| == MAX_PROCS && forall i | 0 <= i < MAX_PROCS :: !procs[i].Alive()
    }

    /** A machine that has not panicked is off exactly when every process has ended. */
    lemma OffWhenAllEnded()
      requires Inv() && mode != Halted
      ensures mode == Off <==> NobodyAlive()
    {
      hide State.Good, Forest, OnScreen, SlotOk, LogOk;
    }

    // ---- kmain ----

    /** The machine as kmain leaves it: `init.elf` runs as the only process. */
    constructor (ram: Mem, layout: Layout, image: seq<byte>)
      requires |ram| == TOTAL_PAGES && layout.Valid() && GoodDisk(image)
      ensures fresh(vm) && fresh(vm.pmm.bitmap) && fresh(ring) && fresh(ring.rxBuf)
      ensures lay == layout && img == image && Inv() && (mode == UserMode || mode == Halted)
      ensures mode == UserMode ==>
        && cur < |procs| && procs[cur].pid == 1 && procs[cur].parent == 0
        && forall i | 0 <= i < MAX_PROCS && i != cur :: !procs[i].Live()
      ensures if mode == UserMode then InitLoaded() else forall entry :: !Bootable(lay, img, entry)
    {
      vm := new AddressSpaces(ram, layout.end);
      ring := new Uart.Ring();
      lay, img := layout, image;
      procs, cur, nextPid, mode, scratch, tty := NoProcs(), 0, 1, Idle, 0, [];
      bases, boot, leaked, delivered, log := seq(MAX_PROCS, _ => 0), 0, {}, [], [];
      new;
      Boot();
    }

    /**
      The program of the running process is RAMDISK file init.elf, without its stack page if there was no
      frame more than that.
     */
    ghost predicate InitLoaded()
      requires cur < |procs|
      reads this, vm
    {
      exists entry: nat, res: Loaded, lost: int {:trigger LoadedAs(entry, res, lost)} ::
        && Bootable(lay, img, entry) && LoadedAs(entry, res, lost)
        && (lost == -1 <==> BootFrames(lay, img, entry) < FramesAtBoot(lay))
    }

    ghost predicate LoadedAs(entry: nat, res: Loaded, lost: int)
      requires cur < |procs|
      reads this, vm
    {
      && res.Running? && procs[cur].root >= 0 && JustLoaded(procs[cur], res)
      && ProgramIn(vm.mem, lay, procs[cur].root, img, Ramdisk.OffsetOf(img, entry), res, lost)
      && if lost == -1 then BootFrames(lay, img, entry) + 1 + |FreeFrames(vm.owner)| == FramesAtBoot(lay)
         else 0 <= lost < |vm.owner| && vm.owner[lost] == Lost && |FreeFrames(vm.owner)| == 0
    }

    ghost predicate JustOn()
      reads this, vm, vm.pmm.bitmap, ring, ring.rxBuf
    {
      && vm.Valid() && ring.Valid() && lay.Valid() && GoodDisk(img) && ring.ed == EMPTY && delivered == []
      && leaked == {} && log == []
      && procs == NoProcs() && nextPid == 1 && bases == seq(MAX_PROCS, _ => 0)
      && forall f {:trigger vm.owner[f]} | 0 <= f < TOTAL_PAGES ::
           vm.owner[f] == if f < Protected(lay) then Reserved else Free
    }

    /** kmain from the boot page table to the first user instruction. */
    method Boot()
      requires JustOn() && mode == Idle
      modifies this, vm`mem, vm`owner, vm`satp, vm.pmm.bitmap
      ensures Inv() && (mode == UserMode || mode == Halted)
      ensures mode == UserMode ==>
        && cur < |procs| && procs[cur].pid == 1 && procs[cur].parent == 0
        && forall i | 0 <= i < MAX_PROCS && i != cur :: !procs[i].Live()
      ensures if mode == UserMode then InitLoaded() else forall entry :: !Bootable(lay, img, entry)
    {
      hide State.Good, Forest, OnScreen, SlotOk, LogOk, GoodDisk, NewTree, KernelOnly, AllocResult, LoadedAs,
           FreeFrames, Tables, KernelTables, SpaceFrames, ProgramFrames, Magic;
      FreeAtBoot();
      var rc, root := NewKernelSpace(vm, lay);
      if rc != Done { mode := Halted; return; }
      boot := root;
      vm.satp := root;
      BootIsGood(old(vm.mem), old(vm.owner), vm.mem, vm.owner, lay, procs, bases, root);
      FirstProcess();
    }

    /** From alloc_proc on. */
    method FirstProcess()
      requires Sound() && ring.ed == EMPTY && leaked == {} && log == [] && mode == Idle && procs == NoProcs()
      requires nextPid == 1 && |bases| == MAX_PROCS
      requires |FreeFrames(vm.owner)| + SpaceFrames(lay) == FramesAtBoot(lay)
      modifies this, vm`mem, vm`owner, vm`satp, vm.pmm.bitmap
      ensures Inv() && (mode == UserMode || mode == Halted)
      ensures mode == UserMode ==>
        && cur < |procs| && procs[cur].pid == 1 && procs[cur].parent == 0
        && forall i | 0 <= i < MAX_PROCS && i != cur :: !procs[i].Live()
      ensures if mode == UserMode then InitLoaded() else forall entry :: !Bootable(lay, img, entry)
    {
      hide State.Good, Forest, OnScreen, SlotOk, LogOk, GoodDisk, NewTree, KernelOnly, AllocResult, LoadedAs,
           FreeFrames, Tables, KernelTables, SpaceFrames, ProgramFrames, Magic;
      ghost var mem1, owner1 := vm.mem, vm.owner;
      var c := AllocProc();
      assert !NoProcs()[0].Live();
      if mode == Halted { return; }
      if c == -1 { mode := Halted; return; }     // load_elf faults on the null pointer
      var found := Ramdisk.GetEntry(img, INIT_ELF);
      if found == -1 { OneInit(-1); mode := Halted; return; }
      Launch(c, found, mem1, owner1);
    }

    lemma FreeAtBoot()
      requires JustOn()
      ensures |FreeFrames(vm.owner)| == FramesAtBoot(lay)
    {
      FreeAbove(vm.owner, Protected(lay));
    }

    /** load_elf into process `c`. */
    method Launch(c: nat, entry: nat, ghost mem0: Mem, ghost owner0: Owners)
      requires ring.Valid() && lay.Valid() && GoodDisk(img) && ring.ed == EMPTY && delivered == [] && leaked == {}
      requires log == [] && |bases| == MAX_PROCS
      requires Forest(mem0, owner0)
      requires Whole().(mem := mem0, owner := owner0, t := NoProcs(), nextPid := 1, noInput := true,
                        leaked := {}).Good()
      requires c < MAX_PROCS && AllocResult(c, NoProcs(), 1, mem0, owner0, {})
      requires Ramdisk.IsLookup(img, INIT_ELF, entry) && |FreeFrames(owner0)| + SpaceFrames(lay) == FramesAtBoot(lay)
      modifies this, vm`mem, vm`owner, vm`satp, vm.pmm.bitmap
      ensures Inv() && (mode == UserMode || mode == Halted)
      ensures mode == UserMode ==>
        && cur < |procs| && procs[cur].pid == 1 && procs[cur].parent == 0
        && forall i | 0 <= i < MAX_PROCS && i != cur :: !procs[i].Live()
      ensures if mode == UserMode then InitLoaded() else forall entry :: !Bootable(lay, img, entry)
    {
      hide State.Good, Forest, OnScreen, SlotOk, LogOk, NewProcess, KernelOnly, ProgramIn, GoodImage, Magic, InitLoaded,
           FreeFrames, Tables, KernelTables, SpaceFrames, ProgramFrames, JustLoaded;
      OneInit(entry);
      var ok, res;
      ghost var lost;
      ok, res, lost := LoadFirst(vm, lay, bases, boot, c, procs[c], img, Ramdisk.OffsetOf(img, entry), mem0, owner0);
      if !ok { mode := Halted; return; }
      FirstPcb(c, procs[c], res);
      procs := procs[c := ExecPcb(procs[c], procs[c].root, res)];
      bases := bases[c := res.heapBreak];
      Enter(c, procs[c]);
      ItIsLoaded(entry, res, lost);
    }

    /** current_proc, its state, satp and the jump to user mode. */
    method Enter(c: nat, ghost p: Proc)
      requires vm.Valid() && ring.Valid() && lay.Valid() && GoodDisk(img) && ring.ed == EMPTY && delivered == []
      requires log == []
      requires c < MAX_PROCS && p.root >= 0 && p.Live() && procs == NoProcs()[c := p] && nextPid == 2
      requires Whole().(t := NoProcs()[c := p.(state := RUNNING)], nextPid := 2, noInput := true).Good()
      modifies `procs, `cur, `mode, `scratch, vm`satp
      ensures Inv() && mode == UserMode && cur == c && procs == NoProcs()[c := p.(state := RUNNING)]
    {
      hide State.Good, Forest, OnScreen, SlotOk, LogOk, GoodDisk, OnlyRuns, NoProcs;
      OneRuns(c, p.(state := RUNNING));
      EmptyLog(c);
      cur := c;
      procs := procs[c := procs[c].(state := RUNNING)];
      assert procs == NoProcs()[c := p.(state := RUNNING)];
      vm.satp := procs[c].root;
      scratch := c;
      mode := UserMode;
    }

    lemma ItIsLoaded(entry: nat, res: Loaded, lost: int)
      requires cur < |procs| && Bootable(lay, img, entry) && LoadedAs(entry, res, lost)
      requires lost == -1 <==> BootFrames(lay, img, entry) < FramesAtBoot(lay)
      ensures InitLoaded()
    {
    }

    lemma OneInit(entry: int)
      requires Ramdisk.IsLookup(img, INIT_ELF, entry)
      ensures forall r :: Bootable(lay, img, r) ==> r == entry
    {
      forall r | Bootable(lay, img, r) ensures r == entry { Ramdisk.OneLookup(img, INIT_ELF, r, entry); }
    }

    // ---- wakeup, schedule ----

    method Wakeup(chan: Chan)
      modifies `procs
      ensures procs == Woken(old(procs), chan)
    {
      for i := 0 to |procs|
        invariant |procs| == old(|procs|)
        invariant forall j {:trigger procs[j]} | 0 <= j < i :: procs[j] == Woken(old(procs), chan)[j]
        invariant forall j {:trigger procs[j]} | i <= j < |procs| :: procs[j] == old(procs)[j]
      {
        if procs[i].state == BLOCKED && procs[i].chan == chan {
          procs := procs[i := procs[i].(state := READY, chan := NoChan)];
        }
      }
    }

    /** Hand the hart to slot `next`: current_proc, its state, satp, and the trap frame to return to. */
    method Dispatch(next: nat)
      requires Core() && next < MAX_PROCS && IsNextReady(procs, cur, next) && procs[next].state == READY
      requires procs[cur].state != RUNNING
      modifies `procs, `cur, `mode, `scratch, `log, vm`satp
      ensures Inv() && mode == UserMode && cur == next
      ensures procs == old(procs)[next := old(procs)[next].(state := RUNNING)]
      ensures log == old(log) + [Pick(old(procs), old(cur), next)]
    {
      hide State.Good, Forest, OnScreen, SlotOk, LogOk, GoodDisk, IsNextReady;
      PicksUp(Whole(), next);
      OneMorePick(log, cur, procs, next);
      log := log + [Pick(procs, cur, next)];
      cur := next;
      procs := procs[next := procs[next].(state := RUNNING)];
      vm.satp := procs[cur].root;
      scratch := cur;
      mode := UserMode;
    }

    /**
      schedule. It takes the ready slot nearest after the current one; the branch that would keep
      the current process cannot be reached; it shuts down only when every slot is free or ended.
     */
    method Schedule()
      requires Core()
      modifies `procs, `cur, `mode, `scratch, `log, vm`satp
      ensures Inv() && mode != Halted && |procs| == MAX_PROCS
      ensures mode == UserMode ==>
        && IsNextReady(Requeued(old(procs), old(cur)), old(cur), cur)
        && procs == Requeued(old(procs), old(cur))[cur := Requeued(old(procs), old(cur))[cur].(state := RUNNING)]
      ensures mode == UserMode || (cur == old(cur) && procs == old(procs) && vm.satp == old(vm.satp))
      ensures mode == Off <==> forall i | 0 <= i < MAX_PROCS :: !old(procs)[i].Alive()
      ensures log ==
        if mode == UserMode then old(log) + [Pick(Requeued(old(procs), old(cur)), old(cur), cur)] else old(log)
    {
      hide State.Good, Forest, OnScreen, SlotOk, LogOk, GoodDisk;
      RequeuedGood(Whole(), cur);
      if procs[cur].state == RUNNING {
        procs := procs[cur := procs[cur].(state := READY)];
      }
      var next := FindReady(procs, cur);
      if next != -1 {
        Dispatch(next);
      } else {
        assert procs[cur].state != READY && procs[cur].state != RUNNING;
        var blocked := AnyBlocked(procs);
        mode := if blocked then Idle else Off;
      }
    }

    /**
      The current process is the same and nothing was picked; or one pick was made, from a line in
      which everybody else who was ready in `t0` was ready.
     */
    ghost predicate Turned(t0: Table, log0: seq<Pick>, cur0: nat)
      reads this
    {
      log0 <= log &&
      if log == log0 then cur == cur0
      else
        && |log| == |log0| + 1 && log[|log0|].from == cur0 && log[|log0|].slot == cur
        && StillReady(t0, log[|log0|].line, cur0)
    }

    /** A turn of the scheduler, after other work on the table. */
    lemma OneTurn(t0: Table, t1: Table, log0: seq<Pick>, cur0: nat)
      requires cur0 < |t1| && StillReady(t0, t1, cur0)
      requires log == if mode == UserMode then log0 + [Pick(Requeued(t1, cur0), cur0, cur)] else log0
      requires mode == UserMode || cur == cur0
      ensures Turned(t0, log0, cur0)
    {
    }

    lemma SamePick(t0: Table)
      ensures Turned(t0, log, cur)
    {
    }

    lemma SameLine(t0: Table, t1: Table, log0: seq<Pick>, cur0: nat)
      requires cur0 < |t0| == |t1| && t1 == t0[cur0 := t1[cur0]] && Turned(t1, log0, cur0)
      ensures Turned(t0, log0, cur0)
    {
    }

    // ---- interrupts ----

    /** One turn of the drain loop of uart_intr. */
    method UartByte(b: byte)
      requires Core()
      modifies `procs, ring, ring.rxBuf
      ensures Core() && ring.ed == old(ring.ed).Receive(b) && old(ring.ed).committed <= ring.ed.committed
      ensures procs == if ring.ed.committed != old(ring.ed).committed then Woken(old(procs), UartRx) else old(procs)
    {
      hide State.Good, Forest, OnScreen, SlotOk, LogOk, GoodDisk;
      ApplyKeepsOk(ring.ed, Received(b));
      var woke := ring.Receive(b);
      if woke { Wakeup(UartRx); }
      InputKeepsGood(Whole().(t := old(procs), noInput := NoInput(old(ring.ed))), old(ring.ed), ring.ed);
    }

    /** uart_intr: drain the bytes that arrived; every commit wakes the readers. */
    method UartIntr(bytes: seq<byte>)
      requires Core()
      modifies `procs, ring, ring.rxBuf
      ensures Core() && ring.ed == Feed(old(ring.ed), bytes) && old(ring.ed).committed <= ring.ed.committed
      ensures procs == if ring.ed.committed != old(ring.ed).committed then Woken(old(procs), UartRx) else old(procs)
    {
      hide State.Good, Forest, OnScreen, SlotOk, LogOk, GoodDisk, Woken, Feed, Editor.Receive;
      FedNone(ring.ed, bytes);
      for i := 0 to |bytes|
        invariant Core() && ring.ed == Feed(old(ring.ed), bytes[..i])
        invariant old(ring.ed).committed <= ring.ed.committed
        invariant procs == if ring.ed.committed != old(ring.ed).committed then Woken(old(procs), UartRx) else old(procs)
      {
        UartByte(bytes[i]);
        FedOneMore(old(ring.ed), bytes, i);
        WokenTwice(old(procs));
      }
    }

    /** A timer tick in user mode. */
    method TimerTick()
      requires Inv() && mode == UserMode
      modifies `procs, `cur, `mode, `scratch, `log, vm`satp
      ensures Inv() && mode == UserMode
      ensures var line := old(procs)[old(cur) := old(procs)[old(cur)].(state := READY)];
        && IsNextReady(line, old(cur), cur) && procs == line[cur := line[cur].(state := RUNNING)]
        && line[cur].state == READY && log == old(log) + [Pick(line, old(cur), cur)]
    {
      Schedule();
    }

    /** A device interrupt in user mode: the same process goes on. */
    method DeviceInterrupt(bytes: seq<byte>)
      requires Inv() && mode == UserMode
      modifies `procs, ring, ring.rxBuf
      ensures Inv() && mode == UserMode && ring.ed == Feed(old(ring.ed), bytes)
      ensures old(ring.ed).committed <= ring.ed.committed
      ensures procs == if ring.ed.committed != old(ring.ed).committed then Woken(old(procs), UartRx) else old(procs)
    {
      hide State.Good, Forest, OnScreen, SlotOk, LogOk, GoodDisk;
      UartIntr(bytes);
    }

    /**
      One turn of schedule's loop after wfi returned: a tick, or bytes from the UART. The system
      leaves the loop exactly when some process has become ready.
     */
    method IdleTurn(bytes: seq<byte>)
      requires Inv() && mode == Idle
      modifies `procs, `cur, `mode, `scratch, `log, vm`satp, ring, ring.rxBuf
      ensures Inv() && (mode == Idle || mode == UserMode)
      ensures ring.ed == Feed(old(ring.ed), bytes) && old(ring.ed).committed <= ring.ed.committed
      ensures mode == UserMode <==>
        ring.ed.committed != old(ring.ed).committed && ReaderAsleep(old(procs))
      ensures Bystanders(old(procs), procs, -1, old(nextPid)) && Idled(old(procs), old(cur), old(log))
      ensures NewTurn(old(log))
    {
      hide State.Good, Forest, OnScreen, SlotOk, LogOk, GoodDisk, Bystanders, Woken, NothingRuns, IsNextReady,
           ReaderAsleep, OnlyRuns, Feed, Requeued, Turned, Idled;
      UartIntr(bytes);
      WakeSpares(old(procs), procs, UartRx, nextPid);
      ghost var t1 := procs;
      var next := FindReady(procs, cur);
      IdleScan(old(procs), procs, ring.ed.committed != old(ring.ed).committed, cur, next);
      if next != -1 {
        Resume(next);
        StillBystanders(old(procs), t1, procs, -1, nextPid);
      }
      IdleTurned(old(procs), t1, old(cur), old(log), ring.ed.committed != old(ring.ed).committed);
    }

    /**
      After a turn of the idle loop: nothing has changed, or the sleepers on the ring are awake and the
      nearest one runs.
     */
    ghost predicate Idled(t: Table, cur0: nat, log0: seq<Pick>)
      reads this
    {
      if mode == Idle then
        procs == t && cur == cur0 && log == log0
      else
        && |t| == MAX_PROCS && cur0 < MAX_PROCS && IsNextReady(Woken(t, UartRx), cur0, cur) && cur < MAX_PROCS
        && procs == Woken(t, UartRx)[cur := Woken(t, UartRx)[cur].(state := RUNNING)]
        && log == log0 + [Pick(Woken(t, UartRx), cur0, cur)]
    }

    lemma IdleTurned(t: Table, t1: Table, cur0: nat, log0: seq<Pick>, woke: bool)
      requires |t| == |t1| == MAX_PROCS && cur0 < MAX_PROCS && NothingRuns(t) && (mode == UserMode || mode == Idle)
      requires t1 == (if woke then Woken(t, UartRx) else t) && (mode == UserMode <==> woke && ReaderAsleep(t))
      requires if mode == Idle then procs == t1 && cur == cur0 && log == log0
               else
                 && cur < MAX_PROCS && IsNextReady(t1, cur0, cur) && procs == t1[cur := t1[cur].(state := RUNNING)]
                 && log == log0 + [Pick(t1, cur0, cur)]
      ensures Idled(t, cur0, log0) && NewTurn(log0)
    {
      hide IsNextReady;
      if mode == Idle && woke {
        forall i {:trigger t[i]} | 0 <= i < MAX_PROCS ensures Woken(t, UartRx)[i] == t[i] {
          assert !(t[i].state == BLOCKED && t[i].chan == UartRx);
        }
        assert Woken(t, UartRx) == t;
      }
      if mode == UserMode { assert log[|log0|].slot == cur; }
    }

    /** The end of the idle loop. */
    method Resume(next: nat)
      requires Core() && next < MAX_PROCS && IsNextReady(procs, cur, next) && procs[next].state == READY
      requires procs[cur].state != RUNNING
      modifies `procs, `cur, `mode, `scratch, `log, vm`satp
      ensures Inv() && mode == UserMode && log == old(log) + [Pick(old(procs), old(cur), cur)] && cur == next
      ensures procs == old(procs)[cur := old(procs)[cur].(state := RUNNING)]
      ensures Bystanders(old(procs), procs, -1, nextPid)
    {
      hide State.Good, Forest, OnScreen, SlotOk, LogOk, GoodDisk, Bystanders, IsNextReady;
      Dispatch(next);
      PickSpares(old(procs), old(cur), procs, cur, nextPid);
    }

    // ---- exit and wait ----

    /** exit_current: SYS_EXIT, and the end of a program that faulted. */
    method ExitCurrent()
      requires Core() && procs[cur].state == RUNNING
      modifies `procs, `cur, `mode, `scratch, `log, vm`satp
      ensures Inv() && mode != Halted && |procs| == MAX_PROCS
      ensures procs[old(cur)] == old(procs)[old(cur)].(state := ZOMBIE)
      ensures Bystanders(old(procs), procs, old(cur), old(nextPid))
      ensures Turned(old(procs), old(log), old(cur))
      ensures forall i {:trigger procs[i]} | 0 <= i < MAX_PROCS && WaitsFor(old(procs), i, old(cur)) ::
        procs[i].state == READY || procs[i].state == RUNNING
    {
      hide State.Good, Forest, OnScreen, SlotOk, LogOk, GoodDisk, Bystanders, WaitsFor;
      EndCurrent();
      ghost var t1 := procs;
      Schedule();
      OneTurn(old(procs), t1, old(log), old(cur));
      PickSpares(t1, old(cur), procs, cur, nextPid);
      StillBystanders(old(procs), t1, procs, old(cur), nextPid);
    }

    /** The current process becomes a zombie, and its parent is woken. */
    method EndCurrent()
      requires Core() && procs[cur].state == RUNNING
      modifies `procs
      ensures Core() && procs[cur] == old(procs)[cur].(state := ZOMBIE)
      ensures Bystanders(old(procs), procs, cur, old(nextPid)) && StillReady(old(procs), procs, cur)
      ensures forall i {:trigger procs[i]} | 0 <= i < MAX_PROCS && WaitsFor(old(procs), i, cur) ::
        procs[i].state == READY
    {
      hide State.Good, Forest, OnScreen, SlotOk, LogOk, GoodDisk, WaitsFor, Bystanders, StillReady, Woken;
      ghost var t := procs;
      procs := procs[cur := procs[cur].(state := ZOMBIE)];
      ghost var p := WakeParent();
      ExitKeepsGood(Whole().(t := t), cur, p);
      ParentIsUp(Whole().(t := t), cur, p);
      EndSpares(t, cur, procs, Pcb(if p == -1 then 0 else p), nextPid);
    }

    /** The scan of exit_current for the parent, and the wakeup on its PCB. */
    method WakeParent() returns (ghost p: int)
      requires |procs| == MAX_PROCS && cur < MAX_PROCS
      modifies `procs
      ensures IsParentSlot(old(procs), cur, p)
      ensures procs == if p == -1 then old(procs) else Woken(old(procs), Pcb(p))
    {
      hide Woken;
      for i := 0 to MAX_PROCS
        invariant procs == old(procs)
        invariant forall j | 0 <= j < i && procs[j].Live() :: procs[j].pid != procs[cur].parent
      {
        if procs[i].pid == procs[cur].parent && procs[i].state != UNUSED {
          Wakeup(Pcb(i));
          return i;
        }
      }
      p := -1;
    }

    /** free_proc of an ended process: stack, tree and PCB. */
    method FreeProc(z: nat)
      requires Core() && z < MAX_PROCS && z != cur && procs[z].state == ZOMBIE
      modifies `procs, vm`owner, vm.pmm.bitmap
      ensures Core() && procs == old(procs)[z := Scrubbed(old(procs)[z])]
      ensures 0 <= old(procs)[z].kstack < |old(vm.owner)| && 0 <= old(procs)[z].root
      ensures vm.owner == WithoutTree(old(vm.owner)[old(procs)[z].kstack := Free], old(procs)[z].root)
    {
      hide State.Good, Forest, OnScreen, SlotOk, LogOk, GoodDisk;
      LiveSlot(Whole(), z);
      LiveSlot(Whole(), cur);
      RootsApart(Whole(), z, cur);
      RoleOutside(vm.mem, vm.owner, procs[z].kstack, Free);
      vm.FreeFrame(procs[z].kstack);
      vm.FreePt(procs[z].root);
      ReapKeepsGood(Whole().(owner := old(vm.owner)), vm.owner, z);
      procs := procs[z := Scrubbed(procs[z])];
    }

    /** Put a value in a0 of the current trap frame. */
    method Return(v: Word)
      requires Core()
      modifies `procs
      ensures Core() && procs == old(procs)[cur := old(procs)[cur].(tf := old(procs)[cur].tf.(a0 := v))]
    {
      hide State.Good, Forest, OnScreen, SlotOk, LogOk, GoodDisk;
      FrameKeepsGood(Whole(), cur, procs[cur].tf.(a0 := v));
      procs := procs[cur := procs[cur].(tf := procs[cur].tf.(a0 := v))];
    }

    /** sleep_on, the sepc rewind, and schedule, which a caller of sleep_on owes together. */
    method SleepOn(chan: Chan)
      requires Core() && procs[cur].state == RUNNING
      requires (chan == UartRx && NoInput(ring.ed)) || (chan == Pcb(cur) && exists c: nat :: LivingChild(procs, cur, c))
      modifies `procs, `cur, `mode, `scratch, `log, vm`satp
      ensures Inv() && (mode == Idle || mode == UserMode)
      ensures procs[old(cur)] == old(procs)[old(cur)].(state := BLOCKED, chan := chan,
                                                       tf := old(procs)[old(cur)].tf.Rewound())
      ensures Bystanders(old(procs), procs, old(cur), old(nextPid)) && Turned(old(procs), old(log), old(cur))
    {
      hide State.Good, Forest, OnScreen, SlotOk, LogOk, GoodDisk, Bystanders;
      FallAsleep(chan);
      ghost var t1 := procs;
      Schedule();
      OneTurn(old(procs), t1, old(log), old(cur));
      PickSpares(t1, old(cur), procs, cur, nextPid);
      StillBystanders(old(procs), t1, procs, old(cur), nextPid);
    }

    /** The current process blocked on `chan`, its sepc back at the ecall. */
    method FallAsleep(chan: Chan)
      requires Core() && procs[cur].state == RUNNING
      requires (chan == UartRx && NoInput(ring.ed)) || (chan == Pcb(cur) && exists c: nat :: LivingChild(procs, cur, c))
      modifies `procs
      ensures Core() && Bystanders(old(procs), procs, cur, old(nextPid))
      ensures procs ==
        old(procs)[cur := old(procs)[cur].(state := BLOCKED, chan := chan, tf := old(procs)[cur].tf.Rewound())]
    {
      hide State.Good, Forest, OnScreen, SlotOk, LogOk, GoodDisk, LivingChild;
      SleepKeepsGood(Whole(), cur, chan, procs[cur].tf.Rewound());
      procs := procs[cur := procs[cur].(state := BLOCKED, chan := chan)];
      procs := procs[cur := procs[cur].(tf := procs[cur].tf.Rewound())];
      assert procs == old(procs)[cur := old(procs)[cur].(state := BLOCKED, chan := chan, tf := procs[cur].tf)];
    }

    /**
      SYS_WAIT: reap the first ended child, `z`, and return its pid; without children (`z` is -1)
      E_NOENT; otherwise (-2) sleep on the own PCB, to run the call again when a child ends.
     */
    method SysWait() returns (z: int)
      requires Inv() && mode == UserMode
      modifies `procs, `cur, `mode, `scratch, `log, vm`satp, vm`owner, vm.pmm.bitmap
      ensures Inv() && (mode == UserMode || mode == Idle) && WaitResult(z, old(procs), old(cur), old(vm.owner))
      ensures z >= 0 <==>
        exists j: nat {:trigger EndedChild(old(procs), j, old(cur))} :: EndedChild(old(procs), j, old(cur))
      ensures Bystanders(old(procs), procs, old(cur), old(nextPid))
      ensures Turned(old(procs), old(log), old(cur))
      ensures RolesStay(old(procs), old(vm.owner), vm.owner, old(cur))
    {
      hide State.Good, Forest, OnScreen, SlotOk, LogOk, GoodDisk, Bystanders, RolesStay, WithoutTree;
      NoRoleChanged(procs, vm.owner, cur);
      z := FindChild();
      if z >= 0 {
        assert EndedChild(procs, z, cur);
        Reap(z);
      } else if z == -1 {
        OneChanged(procs, cur, WithA0(procs[cur], Err(E_NOENT)), nextPid);
        Return(Err(E_NOENT));
      } else {
        SleepOn(Pcb(cur));
      }
    }

    /** The end of a wait that found its ended child. */
    method Reap(z: nat)
      requires Inv() && mode == UserMode && EndedChild(procs, z, cur)
      requires forall j: nat | j < z && IsChild(procs, j, procs[cur].pid) :: procs[j].state != ZOMBIE
      modifies `procs, vm`owner, vm.pmm.bitmap
      ensures Inv() && |procs| == MAX_PROCS && WaitResult(z, old(procs), cur, old(vm.owner))
      ensures procs[cur].state == RUNNING
      ensures Bystanders(old(procs), procs, cur, nextPid) && RolesStay(old(procs), old(vm.owner), vm.owner, cur)
    {
      hide State.Good, Forest, OnScreen, SlotOk, LogOk, GoodDisk, Bystanders, RolesStay, WithoutTree;
      LiveSlot(Whole(), z);
      NotOwnChild(Whole(), cur);
      var deadPid := procs[z].pid;
      FreeProc(z);
      ReapFrees(old(procs), old(vm.owner), z, cur);
      Return(deadPid % WORD_LIMIT);
      ReapSpares(old(procs), z, cur, procs[cur], nextPid);
    }

    /** The scan of SYS_WAIT: the first ended child, -1 without children, -2 when none of them has ended. */
    method FindChild() returns (z: int)
      requires |procs| == MAX_PROCS && cur < MAX_PROCS
      ensures -2 <= z < MAX_PROCS
      ensures z >= 0 ==> IsChild(procs, z, procs[cur].pid) && procs[z].state == ZOMBIE
      ensures forall j: nat | (if z >= 0 then j < z else j < MAX_PROCS) && IsChild(procs, j, procs[cur].pid) ::
        procs[j].state != ZOMBIE
      ensures z < 0 ==> forall j: nat {:trigger EndedChild(procs, j, cur)} :: !EndedChild(procs, j, cur)
      ensures z == -1 ==> forall j: nat | j < MAX_PROCS :: !IsChild(procs, j, procs[cur].pid)
      ensures z == -2 ==>
        exists j: nat {:trigger LivingChild(procs, cur, j)} ::
          j < MAX_PROCS && LivingChild(procs, cur, j) && IsChild(procs, j, procs[cur].pid)
    {
      z := -1;
      for i := 0 to MAX_PROCS
        invariant z == -1 || z == -2
        invariant z == -2 ==>
          exists j: nat {:trigger LivingChild(procs, cur, j)} ::
            j < i && LivingChild(procs, cur, j) && IsChild(procs, j, procs[cur].pid)
        invariant z == -1 ==> forall j: nat | j < i :: !IsChild(procs, j, procs[cur].pid)
        invariant forall j: nat | j < i && IsChild(procs, j, procs[cur].pid) :: procs[j].state != ZOMBIE
      {
        if procs[i].parent == procs[cur].pid && procs[i].state != UNUSED {
          if procs[i].state == ZOMBIE { return i; }
          assert LivingChild(procs, cur, i) && IsChild(procs, i, procs[cur].pid);
          z := -2;
        }
      }
    }

    ghost predicate WaitResult(z: int, t: Table, who: nat, owner0: Owners)
      requires |t| == MAX_PROCS && who < MAX_PROCS
      reads this, vm
    {
      var p := t[who];
      if z >= 0 then
        who == cur && Waited(Shot(t, nextPid, vm.mem, owner0), Shot(procs, nextPid, vm.mem, vm.owner), who, z)
      else
        && vm.owner == owner0 && (forall j: nat | j < MAX_PROCS && IsChild(t, j, p.pid) :: t[j].state != ZOMBIE)
        && if z == -1 then
             && (forall j: nat | j < MAX_PROCS :: !IsChild(t, j, p.pid)) && who == cur
             && procs == t[who := WithA0(p, Err(E_NOENT))]
           else
             && (exists j: nat :: j < MAX_PROCS && IsChild(t, j, p.pid)) && |procs| == MAX_PROCS
             && procs[who] == p.(state := BLOCKED, chan := Pcb(who), tf := p.tf.Rewound())
    }

    // ---- alloc_proc and fork ----

    /** The scan of alloc_proc for an unused slot. */
    method FindUnused() returns (c: int)
      requires |procs| == MAX_PROCS
      ensures -1 <= c < MAX_PROCS && (c == -1 ==> forall i | 0 <= i < MAX_PROCS :: procs[i].Live())
      ensures c != -1 ==> !procs[c].Live() && forall i | 0 <= i < c :: procs[i].Live()
    {
      for i := 0 to MAX_PROCS
        invariant forall j | 0 <= j < i :: procs[j].Live()
      {
        if procs[i].state == UNUSED { return i; }
      }
      return -1;
    }

    /**
      What alloc_proc leaves: a new process nobody else notices, for the frames of a kernel tree and
      a stack; or no process and every live one as it was.
     */
    ghost predicate AllocResult(c: int, t: Table, pid: nat, mem0: Mem, owner0: Owners, leaked0: set<nat>)
      requires |t| == MAX_PROCS
      reads this, vm, vm.pmm.bitmap, ring, ring.rxBuf
    {
      if c == -1 then
        && Sound()
        && (forall i {:trigger procs[i]} | 0 <= i < MAX_PROCS ::
          (t[i].Live() ==> procs[i] == t[i]) && (procs[i].Live() <==> t[i].Live()))
        && AllocRefused(lay, t, owner0) && Dropped(t, owner0, leaked0) && UsedKeep(mem0, owner0, vm.mem)
        && nextPid == if Full(t) then pid else pid + 1
      else
        && 0 <= c < MAX_PROCS && !t[c].Live() && nextPid == pid + 1 && leaked == leaked0
        && |procs| == MAX_PROCS && 0 <= procs[c].root && 0 <= procs[c].kstack < TOTAL_PAGES
        && procs == t[c := NewPcb(t[c], pid, procs[c].root, procs[c].kstack)]
        && vm.Valid() && NewProcess(mem0, owner0, vm.mem, vm.owner, procs[c].root, procs[c].kstack, c)
        && KernelOnly(vm.mem, lay, procs[c].root) && Tables(vm.owner, procs[c].root) == KernelTables(lay)
        && |FreeFrames(owner0)| == |FreeFrames(vm.owner)| + SpaceFrames(lay) + 1
    }

    /** A tree that alloc_proc drops is on the books as leaked. */
    ghost predicate Dropped(t: Table, owner0: Owners, leaked0: set<nat>)
      reads this, vm
    {
      exists r: int {:trigger Abandoned(t, owner0, vm.owner, r)} ::
        Abandoned(t, owner0, vm.owner, r) && leaked == WithTree(leaked0, r)
    }

    lemma ItIsDropped(t: Table, owner0: Owners, leaked0: set<nat>, r: int)
      requires Abandoned(t, owner0, vm.owner, r) && leaked == WithTree(leaked0, r)
      ensures Dropped(t, owner0, leaked0)
    {
    }

    /**
      alloc_proc: the next pid, a root table with the kernel's mappings and a kernel stack for the
      first unused slot. Without a slot or any frame, or with the frames of the tree but none for
      the stack, it gives -1; with fewer than the tree takes it panics.
     */
    method AllocProc() returns (c: int)
      requires Sound()
      modifies `procs, `nextPid, `mode, `leaked, vm`mem, vm`owner, vm.pmm.bitmap
      ensures mode == if AllocPanics(lay, old(procs), old(vm.owner)) then Halted else old(mode)
      ensures |procs| == MAX_PROCS && (c != -1 ==> leaked == old(leaked))
      ensures !AllocPanics(lay, old(procs), old(vm.owner)) ==>
        && -1 <= c < MAX_PROCS && (c == -1 <==> AllocRefused(lay, old(procs), old(vm.owner)))
        && AllocResult(c, old(procs), old(nextPid), old(vm.mem), old(vm.owner), old(leaked))
    {
      hide State.Good, Forest, OnScreen, SlotOk, LogOk, GoodDisk, AllocResult, FreeFrames, SpaceFrames;
      c := FindUnused();
      if c == -1 { NoSlot(); return; }
      c := FillSlot(c);
      if !AllocPanics(lay, old(procs), old(vm.owner)) {
        WhichAlloc(c, old(procs), old(nextPid), old(vm.mem), old(vm.owner), old(leaked));
      }
    }

    /** From the pid on, for an unused slot. */
    method FillSlot(slot: nat) returns (c: int)
      requires Sound() && slot < MAX_PROCS && !procs[slot].Live()
      modifies `procs, `nextPid, `mode, `leaked, vm`mem, vm`owner, vm.pmm.bitmap
      ensures mode == if 0 < |FreeFrames(old(vm.owner))| < SpaceFrames(lay) then Halted else old(mode)
      ensures |procs| == MAX_PROCS && (c != -1 ==> leaked == old(leaked))
      ensures !(0 < |FreeFrames(old(vm.owner))| < SpaceFrames(lay)) ==>
        (c == slot || c == -1) && AllocResult(c, old(procs), old(nextPid), old(vm.mem), old(vm.owner), old(leaked))
    {
      hide State.Good, Forest, OnScreen, SlotOk, LogOk, GoodDisk, KernelOnly, NewTree, NewProcess, AllocResult,
           FreeFrames, Tables, KernelTables, SpaceFrames, NoFree;
      NoFreeIsZero(vm.owner);
      CleanSlot(Whole(), slot);
      procs := procs[slot := procs[slot].(pid := nextPid, state := READY, files := InitialFiles())];
      nextPid := nextPid + 1;
      var rc, root := NewKernelSpace(vm, lay);
      if rc == NoTable { mode := Halted; return -1; }
      if rc == NoPage {
        procs := procs[slot := procs[slot].(root := -1)];
        GiveUp(slot, old(procs), old(nextPid), old(vm.mem), old(vm.owner), -1);
        return -1;
      }
      procs := procs[slot := procs[slot].(root := root)];
      c := AddStack(slot, root, old(procs), old(nextPid), old(vm.mem), old(vm.owner));
    }

    /** The second half of alloc_proc: the kernel stack. */
    method AddStack(slot: nat, root: nat, ghost t: Table, ghost pid: nat, ghost mem0: Mem,
                    ghost owner0: Owners) returns (c: int)
      requires vm.Valid() && ring.Valid() && lay.Valid() && GoodDisk(img)
      requires delivered == ring.ed.committed[..ring.ed.taken]
      requires Forest(mem0, owner0) && Whole().(mem := mem0, owner := owner0, t := t, nextPid := pid).Good()
      requires |t| == |procs| == MAX_PROCS && slot < MAX_PROCS && !t[slot].Live() && nextPid == pid + 1
      requires procs == t[slot := t[slot].(pid := pid, state := READY, files := InitialFiles(), root := root)]
      requires procs[slot].parent == 0 && procs[slot].chan == NoChan
      requires IsFresh(owner0, root) && IsRoot(vm.owner, root) && KernelOnly(vm.mem, lay, root)
      requires NewTree(mem0, owner0, vm.mem, vm.owner, root)
      requires Tables(vm.owner, root) == KernelTables(lay)
      requires |FreeFrames(owner0)| == |FreeFrames(vm.owner)| + SpaceFrames(lay)
      modifies `procs, `leaked, vm`mem, vm`owner, vm.pmm.bitmap
      ensures (c == slot || c == -1) && |procs| == MAX_PROCS && (c != -1 ==> leaked == old(leaked))
      ensures c == -1 <==> NoFree(old(vm.owner))
      ensures AllocResult(c, t, pid, mem0, owner0, old(leaked))
    {
      hide State.Good, Forest, OnScreen, SlotOk, LogOk, GoodDisk, KernelOnly, NewTree, NewProcess, AllocResult,
           FreeFrames, Tables, KernelTables, NoFree;
      NoFreeIsZero(vm.owner);
      ghost var owner1 := vm.owner;
      var kstack := vm.AllocPage();
      if kstack == 0 {
        SomeFree(owner0, root);
        procs := procs[slot := procs[slot].(kstack := -1)];
        GiveUp(slot, t, pid, mem0, owner0, root);
        return -1;
      }
      var k := FrameIndex(kstack);
      SomeFree(owner1, k);
      StackSpent(owner1, k, slot, root);
      StackIsFresh(Whole().(mem := mem0, owner := owner0, t := t, nextPid := pid), vm.mem, owner1, root, k);
      assert vm.owner[k := Free] == owner1;
      GiveStack(k, slot, root, mem0, owner0, t, pid);
      c := slot;
    }

    lemma NoSlot()
      requires Sound() && Full(procs)
      ensures AllocResult(-1, procs, nextPid, vm.mem, vm.owner, leaked)
    {
      ItIsDropped(procs, vm.owner, leaked, -1);
    }

    /**
      The way out of alloc_proc without a frame: the slot is unused again, and the tree built so far, if
      any, is dropped.
     */
    method GiveUp(c: nat, ghost t: Table, ghost pid: nat, ghost mem0: Mem, ghost owner0: Owners, ghost root: int)
      requires vm.Valid() && ring.Valid() && lay.Valid() && GoodDisk(img)
      requires delivered == ring.ed.committed[..ring.ed.taken]
      requires Forest(mem0, owner0) && Whole().(mem := mem0, owner := owner0, t := t, nextPid := pid).Good()
      requires |t| == |procs| == MAX_PROCS && c < MAX_PROCS && !t[c].Live() && procs == t[c := procs[c]]
      requires procs[c].parent == 0 && procs[c].chan == NoChan && nextPid == pid + 1
      requires if root == -1 then vm.mem == mem0 && vm.owner == owner0
               else
                 && 0 <= root && IsFresh(owner0, root) && IsRoot(vm.owner, root)
                 && NewTree(mem0, owner0, vm.mem, vm.owner, root)
      requires NoFree(vm.owner) && AllocRefused(lay, t, owner0) && (root == -1 <==> NoFree(owner0))
      modifies `procs, `leaked
      ensures |procs| == MAX_PROCS && AllocResult(-1, t, pid, mem0, owner0, old(leaked))
    {
      hide State.Good, Forest, OnScreen, SlotOk, LogOk, GoodDisk, NewTree, FreeFrames, NoFree, AllocRefused;
      procs := procs[c := procs[c].(state := UNUSED)];
      assert procs == t[c := procs[c]];
      if root != -1 { leaked := leaked + {root}; }
      TreeAddedKeeps(mem0, owner0, vm.mem, vm.owner, root);
      if root != -1 { TreeTakesAll(mem0, owner0, vm.mem, vm.owner, root); }
      ItIsDropped(t, owner0, old(leaked), root);
      FailedSpawnKeepsGood(Whole().(mem := mem0, owner := owner0, t := t, nextPid := pid, leaked := old(leaked)),
                           vm.mem, vm.owner, leaked, c, procs[c], root);
    }

    /** The kernel stack of a new process: cleared, mapped to itself in its tree, and named by its trap frame. */
    method GiveStack(k: nat, c: nat, root: nat, ghost mem0: Mem, ghost owner0: Owners, ghost t: Table, ghost pid: nat)
      requires vm.Valid() && lay.Valid() && k < TOTAL_PAGES && lay.end <= FrameAddr(k) && vm.owner[k] == InFlight
      requires IsRoot(vm.owner, root) && KernelOnly(vm.mem, lay, root)
      requires Forest(mem0, owner0) && IsFresh(owner0, root) && IsFresh(owner0, k)
      requires NewTree(mem0, owner0, vm.mem, vm.owner[k := Free], root)
      requires |t| == |procs| == MAX_PROCS && c < MAX_PROCS && !t[c].Live() && nextPid == pid + 1
      requires procs == t[c := t[c].(pid := pid, state := READY, files := InitialFiles(), root := root)]
      requires Tables(vm.owner[k := Stack(c)], root) == KernelTables(lay)
      requires |FreeFrames(owner0)| == |FreeFrames(vm.owner[k := Stack(c)])| + SpaceFrames(lay) + 1
      modifies `procs, vm`mem, vm`owner, vm.pmm.bitmap
      ensures |procs| == MAX_PROCS && AllocResult(c, t, pid, mem0, owner0, leaked)
    {
      hide Forest, PathOf, KernelPte, ZeroPage, FreeFrames, Tables, KernelTables, SpaceFrames;
      ghost var mem1, owner1 := vm.mem, vm.owner;
      NonTableWrite(vm.mem, vm.owner, k, ZeroPage());
      vm.mem := vm.mem[k := ZeroPage()];
      assert KernelOnly(vm.mem, lay, root);
      RoleOutside(vm.mem, vm.owner, k, Stack(c));
      vm.owner := vm.owner[k := Stack(c)];
      ghost var mem2, owner2 := vm.mem, vm.owner;
      StackGiven(mem0, owner0, mem1, owner1, mem2, owner2, root, k, c);
      MapKernelStack(vm, lay, root, k);
      NewProcessGrows(mem0, owner0, mem2, owner2, vm.mem, vm.owner, root, k, c);
      procs := procs[c := procs[c].(kstack := k, tf := ZERO_FRAME.(kernelSp := FrameAddr(k) + PAGE_SIZE))];
      assert procs == t[c := NewPcb(t[c], pid, root, k)];
    }

    /**
      SYS_FORK. The child is the parent's copy: its memory page by page, its heap bounds, files and
      registers; it returns 0 where the parent returns its pid. `child` is -1 when alloc_proc gave
      none, and then E_AGAIN is all that the parent's process sees. How many frames are free at the
      call decides between these and the two panics.
     */
    method SysFork() returns (ghost child: int)
      requires Core() && procs[cur].state == RUNNING && mode == UserMode && scratch == cur
      modifies `procs, `nextPid, `mode, `leaked, `bases, vm`mem, vm`owner, vm.pmm.bitmap
      ensures Inv() && (mode == UserMode || mode == Halted) && -1 <= child < MAX_PROCS
      ensures |procs| == MAX_PROCS && cur == old(cur) && old(procs)[cur].root >= 0
      ensures mode == Halted <==> ForkPanics(lay, old(procs), old(vm.owner), old(procs)[cur].root)
      ensures mode == UserMode ==> (child == -1 <==> AllocRefused(lay, old(procs), old(vm.owner)))
      ensures mode == UserMode && child == -1 ==>
        NoFork(old(procs), old(nextPid), old(vm.mem), old(vm.owner), old(leaked))
      ensures mode == UserMode && child != -1 ==>
        ForkResult(child, old(procs), old(nextPid), old(vm.mem), old(vm.owner)) && leaked == old(leaked)
    {
      hide State.Good, Forest, OnScreen, SlotOk, LogOk, GoodDisk, AllocResult, ForkResult, FreeFrames, SpaceFrames,
           CopyFrames;
      child := -1;
      LiveSlot(Whole(), cur);
      var c := AllocProc();
      if mode == Halted { return; }
      if c == -1 {
        StillCurrent(old(procs), old(nextPid), old(vm.mem), old(vm.owner), old(leaked));
        Return(Err(E_AGAIN));
        ForkIsDenied(old(procs), old(nextPid), old(vm.mem), old(vm.owner), old(leaked));
      } else {
        ForkInto(c, old(procs), old(nextPid), old(vm.mem), old(vm.owner));
        child := c;
      }
    }

    /** A fork for which there was no slot or frame: E_AGAIN, and every other live process as before. */
    ghost predicate NoFork(t: Table, pid: nat, mem0: Mem, owner0: Owners, leaked0: set<nat>)
      reads this, vm
    {
      exists r: int
        {:trigger Denied(lay, Shot(t, pid, mem0, owner0), Shot(procs, nextPid, vm.mem, vm.owner), cur, r)} ::
          && Denied(lay, Shot(t, pid, mem0, owner0), Shot(procs, nextPid, vm.mem, vm.owner), cur, r)
          && leaked == WithTree(leaked0, r)
    }

    lemma ForkIsDenied(t: Table, pid: nat, mem0: Mem, owner0: Owners, leaked0: set<nat>)
      requires |t| == |procs| == MAX_PROCS && cur < MAX_PROCS && AllocRefused(lay, t, owner0)
      requires nextPid == (if Full(t) then pid else pid + 1) && procs[cur] == WithA0(t[cur], Err(E_AGAIN))
      requires forall i {:trigger procs[i]} | 0 <= i < MAX_PROCS && i != cur ::
        if t[i].Live() then procs[i] == t[i] else !procs[i].Live()
      requires UsedKeep(mem0, owner0, vm.mem) && Dropped(t, owner0, leaked0)
      ensures NoFork(t, pid, mem0, owner0, leaked0)
    {
      hide UsedKeep, AllocRefused, Abandoned, Full;
      var r: int :| Abandoned(t, owner0, vm.owner, r) && leaked == WithTree(leaked0, r);
      assert Denied(lay, Shot(t, pid, mem0, owner0), Shot(procs, nextPid, vm.mem, vm.owner), cur, r);
    }

    /** What alloc_proc gave says how many frames were free. */
    lemma WhichAlloc(c: int, t: Table, pid: nat, mem0: Mem, owner0: Owners, leaked0: set<nat>)
      requires |t| == MAX_PROCS && AllocResult(c, t, pid, mem0, owner0, leaked0)
      ensures if c == -1 then AllocRefused(lay, t, owner0)
              else !AllocRefused(lay, t, owner0) && |FreeFrames(owner0)| > SpaceFrames(lay)
    {
      hide State.Good, Forest, OnScreen, SlotOk, LogOk, GoodDisk, FreeFrames, SpaceFrames;
    }

    lemma StillCurrent(t: Table, pid: nat, mem0: Mem, owner0: Owners, leaked0: set<nat>)
      requires |t| == MAX_PROCS && AllocResult(-1, t, pid, mem0, owner0, leaked0)
      requires cur < MAX_PROCS && t[cur].Live() && vm.satp == t[cur].root && OnlyRuns(t, cur) && LogOk(log, cur)
      ensures Core() && procs[cur] == t[cur] && UsedKeep(mem0, owner0, vm.mem) && Dropped(t, owner0, leaked0)
      ensures AllocRefused(lay, t, owner0) && nextPid == if Full(t) then pid else pid + 1
      ensures forall i {:trigger procs[i]} | 0 <= i < MAX_PROCS ::
        if t[i].Live() then procs[i] == t[i] else !procs[i].Live()
    {
      hide State.Good, Forest, OnScreen, SlotOk, LogOk, GoodDisk, Dropped;
      forall i {:trigger procs[i].state} | 0 <= i < |procs| && i != cur ensures procs[i].state != RUNNING {
        assert t[i].Live() ==> procs[i] == t[i];
      }
    }

    /** The rest of SYS_FORK, with a slot for the child: its PCB, and then its memory. */
    method ForkInto(c: nat, ghost t: Table, ghost pid: nat, ghost mem0: Mem, ghost owner0: Owners)
      requires ring.Valid() && lay.Valid() && GoodDisk(img) && delivered == ring.ed.committed[..ring.ed.taken]
      requires Forest(mem0, owner0) && Whole().(mem := mem0, owner := owner0, t := t, nextPid := pid).Good()
      requires |t| == MAX_PROCS && c < MAX_PROCS && cur < MAX_PROCS && AllocResult(c, t, pid, mem0, owner0, leaked)
      requires t[cur].state == RUNNING && vm.satp == t[cur].root && OnlyRuns(t, cur) && mode == UserMode
      requires scratch == cur
      requires IsRoot(owner0, vm.satp) && |bases| == MAX_PROCS && LogOk(log, cur)
      modifies `procs, `mode, `bases, vm`mem, vm`owner, vm.pmm.bitmap
      ensures Inv() && (mode == UserMode || mode == Halted) && |procs| == MAX_PROCS
      ensures mode == Halted <==> |FreeFrames(owner0)| < ForkFrames(lay, owner0, t[cur].root)
      ensures mode == UserMode ==> ForkResult(c, t, pid, mem0, owner0)
    {
      hide State.Good, Forest, OnScreen, SlotOk, LogOk, GoodDisk, NewProcess, KernelOnly, ForkResult, FreeFrames,
           SpaceFrames, CopyFrames, Tables, KernelTables, OnlyRuns;
      CleanSlot(Whole().(mem := mem0, owner := owner0, t := t, nextPid := pid), c);
      var parent := procs[cur];
      var childStack := procs[c].tf.kernelSp;
      procs := procs[c := procs[c].(parent := parent.pid, brk := parent.brk, max := parent.max, files := parent.files,
                                    tf := parent.tf.(kernelSp := childStack, a0 := 0))];
      procs := procs[cur := WithA0(parent, procs[c].pid % WORD_LIMIT)];
      assert procs ==
        t[c := ForkPcb(t[cur], pid, procs[c].root, procs[c].kstack)][cur := WithA0(t[cur], pid % WORD_LIMIT)];
      ForkCopy(c, t, pid, mem0, owner0);
    }

    /** The child's memory. */
    method ForkCopy(c: nat, ghost t: Table, ghost pid: nat, ghost mem0: Mem, ghost owner0: Owners)
      requires vm.Valid() && ring.Valid() && lay.Valid() && GoodDisk(img)
      requires delivered == ring.ed.committed[..ring.ed.taken]
      requires Forest(mem0, owner0) && Whole().(mem := mem0, owner := owner0, t := t, nextPid := pid).Good()
      requires |t| == |procs| == MAX_PROCS && c < MAX_PROCS && cur < MAX_PROCS && !t[c].Live() && nextPid == pid + 1
      requires t[cur].state == RUNNING && vm.satp == t[cur].root && OnlyRuns(t, cur) && mode == UserMode
      requires scratch == cur
      requires IsRoot(owner0, vm.satp) && |bases| == MAX_PROCS && LogOk(log, cur) && 0 <= procs[c].root
      requires 0 <= procs[c].kstack < TOTAL_PAGES
      requires procs ==
        t[c := ForkPcb(t[cur], pid, procs[c].root, procs[c].kstack)][cur := WithA0(t[cur], pid % WORD_LIMIT)]
      requires NewProcess(mem0, owner0, vm.mem, vm.owner, procs[c].root, procs[c].kstack, c)
      requires KernelOnly(vm.mem, lay, procs[c].root)
      requires Tables(vm.owner, procs[c].root) == KernelTables(lay)
      requires |FreeFrames(owner0)| == |FreeFrames(vm.owner)| + SpaceFrames(lay) + 1
      modifies `mode, `bases, vm`mem, vm`owner, vm.pmm.bitmap
      ensures Inv() && (mode == UserMode || mode == Halted)
      ensures mode == Halted <==> |FreeFrames(owner0)| < ForkFrames(lay, owner0, t[cur].root)
      ensures mode == UserMode ==> ForkResult(c, t, pid, mem0, owner0)
    {
      hide State.Good, Forest, OnScreen, SlotOk, LogOk, GoodDisk, NewProcess, KernelOnly, ForkedFrom, FreeFrames,
           SpaceFrames, CopyFrames, Tables, KernelTables;
      var ok := ForkMemory(vm, lay, procs[cur].root, procs[c].root, procs[c].kstack, c, mem0, owner0);
      if !ok { mode := Halted; return; }
      ForkKeepsGood(Whole().(mem := mem0, owner := owner0, t := t, nextPid := pid), vm.mem, vm.owner, cur, c,
                    procs[c].root, procs[c].kstack);
      bases := bases[c := bases[cur]];
    }

    ghost predicate ForkResult(child: nat, t: Table, pid: nat, mem0: Mem, owner0: Owners)
      reads this, vm
    {
      Forked(lay, Shot(t, pid, mem0, owner0), Shot(procs, nextPid, vm.mem, vm.owner), cur, child)
    }

    // ---- exec ----

    ghost predicate Executed(t: Table, mem0: Mem, owner0: Owners, at: nat, res: Loaded, lost: int)
      reads this, vm
    {
      Execed(lay, img, Shot(t, nextPid, mem0, owner0), Shot(procs, nextPid, vm.mem, vm.owner), cur, at, res, lost)
    }

    /** The load fails, which exec answers with a panic: no ELF file, or fewer frames free than it takes. */
    ghost predicate NoExec(owner0: Owners, at: nat) {
      Magic(img, at) != ELF_NUM || |FreeFrames(owner0)| < ExecFrames(lay, img, at)
    }

    /** SYS_EXEC once the file is found: load it into a new tree, switch to it, and drop the old one. */
    method Replace(at: nat) returns (ghost res: Loaded, ghost lost: int)
      requires Inv() && mode == UserMode && (Magic(img, at) == ELF_NUM ==> GoodImage(img, at))
      modifies `procs, `mode, `bases, vm`mem, vm`owner, vm`satp, vm.pmm.bitmap
      ensures cur == old(cur) && |procs| == MAX_PROCS && old(procs)[cur].root >= 0
      ensures Inv() && (mode == UserMode || mode == Halted)
      ensures mode == Halted <==> NoExec(old(vm.owner), at)
      ensures mode == UserMode ==> Executed(old(procs), old(vm.mem), old(vm.owner), at, res, lost)
    {
      hide State.Good, Forest, OnScreen, SlotOk, LogOk, GoodDisk, GoodImage, ProgramIn, SpaceOk, Replaced, Magic,
           FreeFrames, ExecFrames, OnlyRuns, Executed;
      LiveSlot(Whole(), cur);
      ghost var st := Whole();
      var ok, newPt, loaded;
      ok, newPt, loaded, lost := LoadNew(vm, lay, img, at, procs[cur].root);
      res := loaded;
      if !ok { mode := Halted; return; }
      SwitchTo(newPt, loaded, at, st, lost);
    }

    /** The end of SYS_EXEC: the PCB and satp for the new tree, and the old tree dropped. */
    method SwitchTo(newPt: nat, loaded: Loaded, ghost at: nat, ghost st: State, ghost lost: int)
      requires vm.Valid() && ring.Valid() && lay.Valid() && GoodDisk(img)
      requires delivered == ring.ed.committed[..ring.ed.taken]
      requires st == Whole().(mem := st.mem, owner := st.owner) && Forest(st.mem, st.owner) && st.Good()
      requires cur < |procs| == MAX_PROCS && procs[cur].state == RUNNING && procs[cur].root >= 0
      requires newPt != procs[cur].root == vm.satp
      requires OnlyRuns(procs, cur) && LogOk(log, cur) && mode == UserMode && scratch == cur && |bases| == MAX_PROCS
      requires IsRoot(vm.owner, procs[cur].root) && IsRoot(vm.owner, newPt)
      requires Magic(img, at) == ELF_NUM ==> GoodImage(img, at)
      requires loaded.Running? && ProgramIn(vm.mem, lay, newPt, img, at, loaded, lost)
      requires Replaced(st.owner, WithoutTree(vm.owner, procs[cur].root), procs[cur].root, newPt, lost)
      requires |st.mem| == TOTAL_PAGES
      requires forall f {:trigger vm.mem[f]} | 0 <= f < TOTAL_PAGES && st.owner[f] != Free :: vm.mem[f] == st.mem[f]
      requires lost == -1 <==> |FreeFrames(st.owner)| > ExecFrames(lay, img, at)
      modifies `procs, `bases, vm`owner, vm`satp, vm.pmm.bitmap
      ensures Inv() && mode == UserMode && Executed(old(procs), st.mem, st.owner, at, loaded, lost)
    {
      hide State.Good, Forest, OnScreen, SlotOk, LogOk, GoodDisk, GoodImage, ProgramIn, SpaceOk, Replaced, Magic,
           FreeFrames, ExecFrames;
      var oldPt := procs[cur].root;
      procs := procs[cur := ExecPcb(procs[cur], newPt, loaded)];
      vm.satp := newPt;
      vm.FreePt(oldPt);
      ExecFits(vm.mem, vm.owner, lay, newPt, img, at, loaded, lost);
      ExecKeepsGood(st, vm.mem, vm.owner, cur, procs[cur], loaded.heapBreak, lost);
      bases := bases[cur := loaded.heapBreak];
    }

    /**
      SYS_EXEC. A bad name pointer or an unknown file leaves the process as it was; `entry` is the
      RAMDISK entry found, -1 or -2 when it did not get that far, -4 when the name cannot be read. It
      panics exactly then, for a file that is no ELF file, and when fewer frames are free than it
      takes.
     */
    method SysExec() returns (ghost entry: int, ghost res: Loaded, ghost lost: int)
      requires Inv() && mode == UserMode
      modifies `procs, `mode, `bases, vm`mem, vm`owner, vm`satp, vm.pmm.bitmap
      ensures Inv() && (mode == UserMode || mode == Halted) && cur == old(cur) && |procs| == MAX_PROCS
      ensures old(procs)[cur].root >= 0
      ensures entry >= -4 && (entry == -4 <==> StringFaults(old(vm.mem), old(procs)[cur].root, old(procs)[cur].tf.a0))
      ensures entry != -4 ==> NamedFile(old(vm.mem), old(procs)[cur].root, old(procs)[cur].tf.a0, entry)
      ensures mode == Halted <==> entry == -4 || (entry >= 0 && NoExec(old(vm.owner), Ramdisk.OffsetOf(img, entry)))
      ensures -4 < entry < 0 ==>
        procs == old(procs)[cur := WithA0(old(procs)[cur], Err(if entry == -1 then E_FAULT else E_NOENT))]
      ensures -4 < entry < 0 ==> vm.mem == old(vm.mem) && vm.owner == old(vm.owner)
      ensures mode == UserMode && entry >= 0 ==>
        Executed(old(procs), old(vm.mem), old(vm.owner), Ramdisk.OffsetOf(img, entry), res, lost)
    {
      hide State.Good, Forest, OnScreen, SlotOk, LogOk, GoodImage, Executed, Magic, NoExec, Ramdisk.Count,
           Ramdisk.OffsetOf, UserString, StringFaults, HighUnmapped;
      res, lost := Panic, -1;
      CurrentFits();
      LiveSlot(Whole(), cur);
      var ok, faults, name := UserStrOk(vm, procs[cur].root, procs[cur].tf.a0, NAME_MAX);
      if faults { mode := Halted; entry := -4; return; }
      if !ok { Return(Err(E_FAULT)); entry := -1; return; }
      var found := Ramdisk.GetEntry(img, name);
      if found == -1 { Return(Err(E_NOENT)); entry := -2; return; }
      entry := found;
      res, lost := Replace(Ramdisk.OffsetOf(img, found));
    }

    /** What became of a file name: -1 for a bad pointer, -2 for no such file, otherwise the entry. */
    ghost predicate NamedFile(mem: Mem, root: nat, ptr: nat, entry: int) {
      if entry == -1 then
        forall n {:trigger UserString(mem, root, ptr, n)} | |n| < NAME_MAX :: !UserString(mem, root, ptr, n)
      else entry >= -2 && exists n {:trigger UserString(mem, root, ptr, n)} ::
        |n| < NAME_MAX && UserString(mem, root, ptr, n) && Ramdisk.IsLookup(img, n, if entry == -2 then -1 else entry)
    }

    // ---- sbrk ----

    /**
      SYS_SBRK. Either the heap grows by exactly the new zeroed pages and the old break is returned,
      or no translation changes, the break stays, and the result is the old break for an increment
      of zero, E_PERM for a negative one, and E_NOMEM past heap_max or when fewer frames are free
      than the new pages and their missing tables.
     */
    method SysSbrk() returns (ghost grown: bool)
      requires Inv() && mode == UserMode
      modifies `procs, vm`mem, vm`owner, vm.pmm.bitmap
      ensures Inv() && SbrkResult(old(procs), old(vm.mem), old(vm.owner), grown)
    {
      hide State.Good, Forest, OnScreen, SlotOk, LogOk, GoodDisk, GrowResult, SbrkResult;
      grown := false;
      CurrentFits();
      var increment := procs[cur].tf.a0;
      var oldBreak := procs[cur].brk;
      if increment == 0 {
        Return(oldBreak);
        Ungrown(old(procs));
      } else if increment >= WORD_LIMIT / 2 {
        Return(Err(E_PERM));
        Ungrown(old(procs));
      } else if oldBreak + increment > procs[cur].max {
        Return(Err(E_NOMEM));
        Ungrown(old(procs));
      } else {
        grown := Grow(oldBreak + increment);
        Tried(old(procs), old(vm.mem), old(vm.owner), oldBreak + increment, grown);
      }
    }

    lemma Ungrown(t: Table)
      requires |t| == MAX_PROCS && cur < MAX_PROCS && t[cur].root >= 0 && t[cur].max == HEAP_MAX
      requires |vm.mem| == |vm.owner| == TOTAL_PAGES
      requires t[cur].tf.a0 == 0 || t[cur].tf.a0 >= WORD_LIMIT / 2 || t[cur].brk + t[cur].tf.a0 > t[cur].max
      requires procs == t[cur := WithA0(t[cur], NoGrowth(t[cur]))]
      ensures SbrkResult(t, vm.mem, vm.owner, false)
    {
      hide NoGrowth, TooFew, TreeGrowth, SameLeaves;
      GrowthRefl(vm.mem, vm.owner, t[cur].root);
    }

    lemma Tried(t: Table, mem0: Mem, owner0: Owners, newBreak: nat, ok: bool)
      requires |t| == MAX_PROCS && cur < MAX_PROCS && t[cur].root >= 0 && t[cur].max == HEAP_MAX
      requires 0 < t[cur].tf.a0 < WORD_LIMIT / 2 && newBreak == t[cur].brk + t[cur].tf.a0 <= HEAP_MAX
      requires GrowResult(t[cur], mem0, owner0, newBreak, ok)
      requires procs == t[cur := if ok then Heaped(t[cur], newBreak) else WithA0(t[cur], Err(E_NOMEM))]
      ensures SbrkResult(t, mem0, owner0, ok)
    {
      hide TooFew, TreeGrowth, SameLeaves, Grown, PageCeil;
    }

    /** The rest of SYS_SBRK, for a new break within bounds. */
    method Grow(newBreak: nat) returns (ok: bool)
      requires Inv() && mode == UserMode && procs[cur].brk < newBreak <= HEAP_MAX
      modifies `procs, vm`mem, vm`owner, vm.pmm.bitmap
      ensures Inv() && |procs| == MAX_PROCS && old(procs)[cur].root >= 0
      ensures GrowResult(old(procs)[cur], old(vm.mem), old(vm.owner), newBreak, ok)
      ensures procs ==
        old(procs)[cur := if ok then Heaped(old(procs)[cur], newBreak) else WithA0(old(procs)[cur], Err(E_NOMEM))]
    {
      hide State.Good, Forest, OnScreen, SlotOk, LogOk, GoodDisk, GrowResult;
      var oldBreak := procs[cur].brk;
      ok := GrowTree(newBreak);
      Return(if ok then oldBreak else Err(E_NOMEM));
    }

    /** The loop of SYS_SBRK and the new break. */
    method GrowTree(newBreak: nat) returns (ok: bool)
      requires Inv() && mode == UserMode && procs[cur].brk < newBreak <= HEAP_MAX
      modifies `procs, vm`mem, vm`owner, vm.pmm.bitmap
      ensures Inv() && |procs| == MAX_PROCS && old(procs)[cur].root >= 0 && old(procs)[cur].brk < WORD_LIMIT
      ensures GrowResult(old(procs)[cur], old(vm.mem), old(vm.owner), newBreak, ok)
      ensures procs == if ok then old(procs)[cur := old(procs)[cur].(brk := newBreak)] else old(procs)
    {
      hide State.Good, Forest, OnScreen, SlotOk, LogOk, GoodDisk, TreeGrowth, Grown, SpaceOk, SameLeaves, PageCeil,
           FreeFrames, Spent, Short, RangeTables;
      LiveSlot(Whole(), cur);
      var oldBreak := procs[cur].brk;
      HeapBounds(vm.mem, vm.owner, lay, procs[cur], cur, bases[cur]);
      ok := GrowHeap(vm, lay, procs[cur].root, bases[cur], oldBreak, newBreak);
      if ok {
        SpentIsNotShort(old(vm.owner), vm.owner, procs[cur].root, RangeTables(PageCeil(oldBreak), PageCeil(newBreak)),
                        PageCeil(newBreak) - PageCeil(oldBreak));
      }
      SbrkKeepsGood(old(Whole()), vm.mem, vm.owner, cur, if ok then newBreak else oldBreak);
      assert procs[cur := procs[cur].(brk := oldBreak)] == procs;
      if ok { procs := procs[cur := procs[cur].(brk := newBreak)]; }
    }

    /** The heap of `p` grew to `newBreak` or, for want of frames, nothing of it changed. */
    ghost predicate GrowResult(p: Proc, mem0: Mem, owner0: Owners, newBreak: nat, ok: bool)
      requires p.root >= 0 && p.brk <= newBreak <= HEAP_MAX
      reads vm
    {
      && TreeGrowth(mem0, owner0, vm.mem, vm.owner, p.root) && (ok <==> !TooFew(owner0, p.root, p.brk, newBreak))
      && if ok then Grown(mem0, vm.mem, owner0, p.root, PageCeil(p.brk), PageCeil(newBreak))
         else SameLeaves(mem0, vm.mem, owner0)
    }

    ghost predicate SbrkResult(t: Table, mem0: Mem, owner0: Owners, grown: bool)
      reads this, vm
    {
      Sbrked(Shot(t, nextPid, mem0, owner0), Shot(procs, nextPid, vm.mem, vm.owner), cur, grown)
    }

    // ---- files ----

    /** The lowest closed descriptor from 3 up. */
    method FindFd() returns (fd: int)
      requires cur < |procs| && |procs[cur].files| == FD_MAX
      ensures IsFreeFd(procs[cur].files, fd)
    {
      for i := 3 to FD_MAX
        invariant forall j | 3 <= j < i :: procs[cur].files[j].kind != Closed
      {
        if procs[cur].files[i].kind == Closed { return i; }
      }
      return -1;
    }

    /** SYS_OPEN: `entry` is as for SysExec, -3 when no descriptor is free. */
    method SysOpen() returns (ghost entry: int, fd: int)
      requires Inv() && mode == UserMode
      modifies `procs, `mode
      ensures Inv() && |procs| == MAX_PROCS && old(procs)[cur].root >= 0 && |old(procs)[cur].files| == FD_MAX
      ensures mode == if entry == -4 then Halted else UserMode
      ensures entry == -4 <==> StringFaults(vm.mem, old(procs)[cur].root, old(procs)[cur].tf.a0)
      ensures entry == -3 || entry == -4 || NamedFile(vm.mem, old(procs)[cur].root, old(procs)[cur].tf.a0, entry)
      ensures entry != -1 && entry != -4 ==> IsFreeFd(old(procs)[cur].files, fd) && (entry == -3 <==> fd == -1)
      ensures entry != -4 ==> procs == old(procs)[cur :=
        if entry == -1 then WithA0(old(procs)[cur], Err(E_FAULT))
        else if entry == -2 then WithA0(old(procs)[cur], Err(E_NOENT))
        else if entry == -3 then WithA0(old(procs)[cur], Err(E_NOMEM))
        else WithA0(WithFile(old(procs)[cur], fd, FileOf(img, entry)), fd)]
    {
      hide State.Good, Forest, OnScreen, SlotOk, LogOk, GoodDisk, UserString, StringFaults, HighUnmapped,
           Ramdisk.OffsetOf, Ramdisk.SizeOf, Ramdisk.Count;
      fd := -1;
      CurrentFits();
      LiveSlot(Whole(), cur);
      var ok, faults, name := UserStrOk(vm, procs[cur].root, procs[cur].tf.a0, NAME_MAX);
      if faults { mode := Halted; entry := -4; return; }
      if !ok { entry := -1; Return(Err(E_FAULT)); return; }
      fd := FindFd();
      if fd == -1 { entry := -3; Return(Err(E_NOMEM)); return; }
      var found := Ramdisk.GetEntry(img, name);
      if found == -1 { entry := -2; Return(Err(E_NOENT)); return; }
      entry := found;
      SetFile(fd, FileOf(img, found));
      Return(fd);
    }

    /** Fill in one slot of the descriptor table. */
    method SetFile(fd: nat, file: File)
      requires Inv() && mode == UserMode && fd < FD_MAX && file.offset <= file.size
      modifies `procs
      ensures Inv() && |procs| == MAX_PROCS && |old(procs)[cur].files| == FD_MAX
      ensures procs == old(procs)[cur := WithFile(old(procs)[cur], fd, file)]
    {
      hide State.Good, Forest, OnScreen, SlotOk, LogOk, GoodDisk;
      LiveSlot(Whole(), cur);
      FilesKeepGood(Whole(), cur, fd, file);
      procs := procs[cur := WithFile(procs[cur], fd, file)];
    }

    /** SYS_CLOSE. */
    method SysClose()
      requires Inv() && mode == UserMode
      modifies `procs
      ensures Inv() && |procs| == MAX_PROCS && |old(procs)[cur].files| == FD_MAX
      ensures var (p, fd) := (old(procs)[cur], AsInt(old(procs)[cur].tf.a0));
        procs ==
          old(procs)[cur := if IsOpen(p.files, fd) then WithA0(WithFile(p, fd, CLOSED), 0) else WithA0(p, Err(E_BADF))]
    {
      hide State.Good, Forest, OnScreen, SlotOk, LogOk, GoodDisk;
      LiveSlot(Whole(), cur);
      var fd := AsInt(procs[cur].tf.a0);
      if fd < 0 || fd >= FD_MAX { Return(Err(E_BADF)); return; }
      if procs[cur].files[fd].kind == Closed { Return(Err(E_BADF)); return; }
      SetFile(fd, CLOSED);
      Return(0);
    }

    // ---- read ----

    /** The error, if any, for which SYS_READ (`need` W) and SYS_WRITE (R) are refused before they look at the file. */
    ghost predicate Refused(mem: Mem, p: Proc, need: nat, code: int)
      requires p.root >= 0 && |p.files| == FD_MAX
    {
      if !Accepts(mem, p.root, p.tf.a1, p.tf.a2 % Ramdisk.LIMIT32, need) then code == E_FAULT
      else if !IsOpen(p.files, AsInt(p.tf.a0)) then code == E_BADF
      else code == 0
    }

    /** The checks at the head of SYS_READ and SYS_WRITE. */
    method CheckBuffer(need: nat) returns (code: int)
      requires Inv() && mode == UserMode
      modifies `procs
      ensures Inv() && |procs| == MAX_PROCS && old(procs)[cur].root >= 0 && |old(procs)[cur].files| == FD_MAX
      ensures Refused(vm.mem, old(procs)[cur], need, code)
      ensures code != 0 ==> 0 < code <= E_AGAIN && procs == old(procs)[cur := WithA0(old(procs)[cur], Err(code))]
      ensures code == 0 ==> procs == old(procs)
    {
      hide State.Good, Forest, OnScreen, SlotOk, LogOk, GoodDisk, RangeOk, Accepts;
      LiveSlot(Whole(), cur);
      var fd := AsInt(procs[cur].tf.a0);
      code := E_FAULT;
      var ok := UserRangeOk(vm, procs[cur].root, procs[cur].tf.a1, procs[cur].tf.a2 % Ramdisk.LIMIT32, need);
      if ok { code := if fd < 0 || fd >= FD_MAX || procs[cur].files[fd].kind == Closed then E_BADF else 0; }
      if code != 0 { Return(Err(code)); }
    }

    /** The buffer the call names holds something, and no address of it is in the low half. */
    ghost predicate OutOfReach(p: Proc) {
      p.tf.a2 % Ramdisk.LIMIT32 > 0 && p.tf.a1 + p.tf.a2 % Ramdisk.LIMIT32 > LOW_HALF
    }

    /** Whether the kernel's first access to the buffer succeeds. */
    lemma BufferReached(size: nat, need: nat, acc: Access)
      requires Inv() && mode == UserMode && 0 < size < Ramdisk.LIMIT32 && procs[cur].root >= 0
      requires Accepts(vm.mem, procs[cur].root, procs[cur].tf.a1, size, need)
      requires (acc.Load? && need == PTE_R) || (acc.Store? && need == PTE_W)
      ensures vm.satp == procs[cur].root
      ensures HwTranslate(vm.mem, vm.satp, procs[cur].tf.a1, acc, false) != -1 <==> procs[cur].tf.a1 + size <= LOW_HALF
      ensures procs[cur].tf.a1 + size <= LOW_HALF ==> RangeOk(vm.mem, procs[cur].root, procs[cur].tf.a1, size, need)
    {
      hide State.Good, Forest, OnScreen, SlotOk, LogOk, GoodDisk, RangeOk, Accepts, HighUnmapped, HwTranslate;
      CurrentFits();
      LiveSlot(Whole(), cur);
      NeedBits();
      KernelReaches(vm.mem, vm.owner, procs[cur].root, procs[cur].tf.a1, size, need, acc);
      if procs[cur].tf.a1 + size <= LOW_HALF { CheckIsRange(vm.mem, procs[cur].root, procs[cur].tf.a1, size, need); }
    }

    /**
      The console arm of SYS_READ. With nothing committed the process sleeps, its registers as they
      were at the ecall; otherwise it gets one line or as much of it as fits, and never sleeps. A
      buffer the kernel cannot reach halts it once there is a byte to store.
     */
    method ReadConsole()
      requires Inv() && mode == UserMode && procs[cur].root >= 0
      requires Accepts(vm.mem, procs[cur].root, procs[cur].tf.a1, procs[cur].tf.a2 % Ramdisk.LIMIT32, PTE_W)
      modifies `procs, `cur, `mode, `scratch, `log, `delivered, vm`mem, vm`satp, ring`rxTail, ring`ed
      ensures Inv() && mode != Off && (mode == Halted <==> OutOfReach(old(procs)[old(cur)]) && !NoInput(old(ring.ed)))
      ensures mode != Halted ==> ConsoleResult(old(procs), old(cur), old(vm.mem), old(ring.ed), old(delivered))
      ensures old(delivered) <= delivered && ring.ed.committed == old(ring.ed).committed
      ensures Turned(old(procs), old(log), old(cur))
      ensures mode != Halted ==>
        Bystanders(old(procs), procs, old(cur), old(nextPid))
      ensures mode != Halted ==> OthersKeep(old(vm.mem), old(vm.owner), vm.mem, old(procs)[old(cur)].root)
    {
      hide State.Good, Forest, OnScreen, SlotOk, LogOk, GoodDisk, RangeOk, StoreBytes, LineFor, Bystanders, OthersKeep,
           Accepts, HwTranslate;
      var root, buffer, size := procs[cur].root, procs[cur].tf.a1, procs[cur].tf.a2 % Ramdisk.LIMIT32;
      if size == 0 {
        OneChanged(procs, cur, WithA0(procs[cur], 0), nextPid);
        NothingWritten(vm.mem, vm.owner, root);
        NoneStored(vm.mem, root, buffer);
        Return(0);
        return;
      }
      BufferReached(size, PTE_W, Store);
      if HwTranslate(vm.mem, vm.satp, buffer, Store, false) != -1 { ReadLine(size); } else { ReadNowhere(size); }
    }

    /** That arm for a buffer out of reach: to sleep, or to take a byte and fault on the store. */
    method ReadNowhere(size: nat)
      requires Inv() && mode == UserMode && procs[cur].root >= 0 && 0 < size == procs[cur].tf.a2 % Ramdisk.LIMIT32
      modifies `procs, `cur, `mode, `scratch, `log, vm`satp, ring`rxTail, ring`ed
      ensures Inv() && mode != Off && (mode == Halted <==> !NoInput(old(ring.ed)))
      ensures mode != Halted ==> ConsoleResult(old(procs), old(cur), old(vm.mem), old(ring.ed), old(delivered))
      ensures ring.ed.committed == old(ring.ed).committed && Turned(old(procs), old(log), old(cur))
      ensures mode != Halted ==>
        Bystanders(old(procs), procs, old(cur), old(nextPid))
      ensures mode != Halted ==> OthersKeep(old(vm.mem), old(vm.owner), vm.mem, old(procs)[old(cur)].root)
    {
      hide State.Good, Forest, OnScreen, SlotOk, LogOk, GoodDisk, Bystanders, OthersKeep, ConsoleResult;
      CurrentFits();
      NothingWritten(vm.mem, vm.owner, procs[cur].root);
      var c := ring.GetC();
      if c != -1 { mode := Halted; return; }
      NoLine(size);
      SleepOn(UartRx);
      LineIsResult(old(procs), old(cur), old(vm.mem), old(ring.ed), old(delivered), size, 0);
    }

    /** That arm for a buffer that holds something. */
    method ReadLine(size: nat)
      requires Inv() && mode == UserMode && procs[cur].root >= 0
      requires 0 < size == procs[cur].tf.a2 % Ramdisk.LIMIT32
      requires RangeOk(vm.mem, procs[cur].root, procs[cur].tf.a1, size, PTE_W)
      modifies `procs, `cur, `mode, `scratch, `log, `delivered, vm`mem, vm`satp, ring`rxTail, ring`ed
      ensures Inv() && (mode == Idle || mode == UserMode)
      ensures ConsoleResult(old(procs), old(cur), old(vm.mem), old(ring.ed), old(delivered))
      ensures old(delivered) <= delivered && ring.ed.committed == old(ring.ed).committed
      ensures Bystanders(old(procs), procs, old(cur), old(nextPid)) && Turned(old(procs), old(log), old(cur))
      ensures OthersKeep(old(vm.mem), old(vm.owner), vm.mem, old(procs)[old(cur)].root)
    {
      hide State.Good, Forest, OnScreen, SlotOk, LogOk, GoodDisk, RangeOk, Bystanders, OthersKeep, ConsoleResult,
           StoreBytes, LineFor;
      var n := TakeLine(procs[cur].root, procs[cur].tf.a1, size);
      OneChanged(procs, cur, WithA0(procs[cur], n), nextPid);
      if n == 0 { SleepOn(UartRx); } else { Return(n); }
      LineIsResult(old(procs), old(cur), old(vm.mem), old(ring.ed), old(delivered), size, n);
    }

    lemma NoLine(size: nat)
      requires cur < |procs| && procs[cur].root >= 0 && ring.ed.taken <= |ring.ed.committed| && ring.ed.Unread() == []
      ensures LineTaken(ring.ed, vm.mem, delivered, procs[cur].root, procs[cur].tf.a1, size, 0)
    {
    }

    lemma LineIsResult(t: Table, who: nat, mem0: Mem, e: Editor, before: seq<byte>, size: nat, n: Word)
      requires |t| == |procs| == MAX_PROCS && who < MAX_PROCS && t[who].root >= 0 && e.taken <= |e.committed|
      requires 0 < size == t[who].tf.a2 % Ramdisk.LIMIT32
      requires LineTaken(e, mem0, before, t[who].root, t[who].tf.a1, size, n)
      requires if n == 0 then
                 procs[who] == t[who].(state := BLOCKED, chan := UartRx, tf := t[who].tf.Rewound())
               else who == cur && procs == t[who := WithA0(t[who], n)]
      ensures ConsoleResult(t, who, mem0, e, before) && before <= delivered && ring.ed.committed == e.committed
    {
      hide LineFor, StoreBytes;
    }

    /** CopyLine, for the whole kernel's invariant: nobody else notices. */
    method TakeLine(root: nat, buffer: nat, size: nat) returns (n: nat)
      requires Inv() && mode == UserMode && root == procs[cur].root && 0 < size < Ramdisk.LIMIT32
      requires RangeOk(vm.mem, root, buffer, size, PTE_W)
      modifies `delivered, vm`mem, ring`rxTail, ring`ed
      ensures Inv() && mode == UserMode && old(ring.ed).taken <= |old(ring.ed).committed| && n <= size
      ensures n == 0 ==> NoInput(ring.ed)
      ensures LineTaken(old(ring.ed), old(vm.mem), old(delivered), root, buffer, size, n)
      ensures OthersKeep(old(vm.mem), vm.owner, vm.mem, root)
    {
      hide State.Good, Forest, OnScreen, SlotOk, LogOk, GoodDisk, RangeOk, StoreBytes, LineFor, BytesAt;
      LiveSlot(Whole(), cur);
      ghost var e, line := ring.ed, LineFor(ring.ed.Unread(), size);
      n := CopyLine(vm, ring, root, buffer, size);
      BytesStored(old(vm.mem), vm.owner, root, buffer, size, line);
      UserStoreKeepsGood(Whole().(mem := old(vm.mem), noInput := NoInput(e)), vm.mem, cur);
      if n > 0 { DrainKeepsGood(Whole()); }
      DeliveredMore(e, line);
      delivered := delivered + line;
    }

    ghost predicate LineTaken(e: Editor, mem0: Mem, before: seq<byte>, root: nat, buffer: nat, size: nat, n: nat)
      requires e.taken <= |e.committed|
      reads this, vm, ring
    {
      var line := LineFor(e.Unread(), size);
      && n == |line| && (n == 0 <==> e.Unread() == []) && ring.ed == e.(taken := e.taken + n)
      && delivered == before + line && vm.mem == StoreBytes(mem0, root, buffer, line)
    }

    ghost predicate ConsoleResult(t: Table, who: nat, mem0: Mem, e: Editor, before: seq<byte>)
      requires |t| == MAX_PROCS && who < MAX_PROCS && t[who].root >= 0 && e.taken <= |e.committed|
      reads this, vm, ring
    {
      var (p, size, line) := (t[who], t[who].tf.a2 % Ramdisk.LIMIT32,
                              LineFor(e.Unread(), t[who].tf.a2 % Ramdisk.LIMIT32));
      && |procs| == MAX_PROCS && vm.mem == StoreBytes(mem0, p.root, p.tf.a1, line)
      && delivered == before + line && ring.ed == e.(taken := e.taken + |line|)
      && if size > 0 && e.Unread() == [] then
           procs[who] == p.(state := BLOCKED, chan := UartRx, tf := p.tf.Rewound())
         else
           who == cur && procs == t[who := WithA0(p, |line|)]
    }

    /** The RAMDISK arm of SYS_READ. A buffer the kernel cannot reach halts it unless there is nothing to copy. */
    method ReadRamdisk(fd: nat)
      requires Inv() && mode == UserMode && procs[cur].root >= 0 && |procs[cur].files| == FD_MAX && fd < FD_MAX
      requires Accepts(vm.mem, procs[cur].root, procs[cur].tf.a1, procs[cur].tf.a2 % Ramdisk.LIMIT32, PTE_W)
      modifies `procs, `mode, vm`mem
      ensures Inv() && (mode == UserMode || mode == Halted)
      ensures mode == Halted <==>
        OutOfReach(old(procs)[cur]) && old(procs)[cur].files[fd].offset < old(procs)[cur].files[fd].size
      ensures mode == UserMode ==> RamdiskResult(old(procs), cur, fd, old(vm.mem))
      ensures mode == UserMode ==>
        && Bystanders(old(procs), procs, cur, old(nextPid))
        && OthersKeep(old(vm.mem), vm.owner, vm.mem, old(procs)[cur].root)
    {
      hide State.Good, Forest, OnScreen, SlotOk, LogOk, GoodDisk, RangeOk, StoreBytes, WithFile, Slice, OthersKeep,
           Bystanders, Accepts, HwTranslate;
      var p, file, size := procs[cur], procs[cur].files[fd], procs[cur].tf.a2 % Ramdisk.LIMIT32;
      LiveSlot(Whole(), cur);
      OffsetsOk(vm.mem, vm.owner, lay, p, cur, bases[cur], fd);
      var bytesLeft := file.size - file.offset;
      if bytesLeft == 0 {
        ReadNothing(fd);
        return;
      }
      var readSize := if size > bytesLeft then bytesLeft else size;
      if readSize == 0 {
        ReadNothing(fd);
        return;
      }
      BufferReached(size, PTE_W, Store);
      if HwTranslate(vm.mem, vm.satp, p.tf.a1, Store, false) == -1 { mode := Halted; return; }
      ReadBytes(fd, readSize);
    }

    /** That arm where there is nothing to copy: the offset stays, and the result is 0. */
    method ReadNothing(fd: nat)
      requires Inv() && mode == UserMode && procs[cur].root >= 0 && |procs[cur].files| == FD_MAX && fd < FD_MAX
      requires procs[cur].files[fd].offset <= procs[cur].files[fd].size
      requires procs[cur].files[fd].offset == procs[cur].files[fd].size || procs[cur].tf.a2 % Ramdisk.LIMIT32 == 0
      modifies `procs
      ensures Inv() && RamdiskResult(old(procs), cur, fd, vm.mem)
      ensures Bystanders(old(procs), procs, cur, old(nextPid))
      ensures OthersKeep(vm.mem, vm.owner, vm.mem, old(procs)[cur].root)
    {
      hide State.Good, Forest, OnScreen, SlotOk, LogOk, GoodDisk, StoreBytes, WithFile, Slice, OthersKeep, Bystanders,
           RamdiskResult;
      CurrentFits();
      AtEnd(vm.mem, img, procs[cur], fd);
      NothingWritten(vm.mem, vm.owner, procs[cur].root);
      OneChanged(procs, cur, WithA0(procs[cur], 0), nextPid);
      Return(0);
      BytesRead(old(procs), fd, vm.mem, 0);
    }

    /** That arm for a file that is not at its end. */
    method ReadBytes(fd: nat, readSize: nat)
      requires Inv() && mode == UserMode && procs[cur].root >= 0 && |procs[cur].files| == FD_MAX && fd < FD_MAX
      requires RangeOk(vm.mem, procs[cur].root, procs[cur].tf.a1, procs[cur].tf.a2 % Ramdisk.LIMIT32, PTE_W)
      requires procs[cur].files[fd].offset <= procs[cur].files[fd].size
      requires readSize ==
        Ramdisk.ReadSize(procs[cur].files[fd].offset, procs[cur].files[fd].size, procs[cur].tf.a2 % Ramdisk.LIMIT32)
      modifies `procs, vm`mem
      ensures Inv() && mode == UserMode && RamdiskResult(old(procs), cur, fd, old(vm.mem))
      ensures Bystanders(old(procs), procs, cur, old(nextPid))
      ensures OthersKeep(old(vm.mem), vm.owner, vm.mem, old(procs)[cur].root)
    {
      hide State.Good, Forest, OnScreen, SlotOk, LogOk, GoodDisk, RangeOk, StoreBytes, WithFile, Slice, OthersKeep,
           Bystanders, RamdiskResult;
      var p, file, size := procs[cur], procs[cur].files[fd], procs[cur].tf.a2 % Ramdisk.LIMIT32;
      CopyToUser(p.root, p.tf.a1, size, Slice(img, file.data + file.offset, readSize));
      Advance(fd, file.(offset := file.offset + readSize), readSize);
      OneChanged(old(procs), cur, procs[cur], nextPid);
      BytesRead(old(procs), fd, old(vm.mem), readSize);
    }

    lemma BytesRead(t: Table, fd: nat, mem0: Mem, n: Word)
      requires |t| == MAX_PROCS && cur < MAX_PROCS && t[cur].root >= 0 && |t[cur].files| == FD_MAX && fd < FD_MAX
      requires t[cur].files[fd].offset <= t[cur].files[fd].size
      requires n == Ramdisk.ReadSize(t[cur].files[fd].offset, t[cur].files[fd].size, t[cur].tf.a2 % Ramdisk.LIMIT32)
      requires vm.mem ==
        StoreBytes(mem0, t[cur].root, t[cur].tf.a1, Slice(img, t[cur].files[fd].data + t[cur].files[fd].offset, n))
      requires procs ==
        t[cur := WithA0(WithFile(t[cur], fd, t[cur].files[fd].(offset := t[cur].files[fd].offset + n)), n)]
      ensures RamdiskResult(t, cur, fd, mem0)
    {
      hide StoreBytes, Slice, WithFile;
    }

    /** The file's new offset, and the number of bytes read. */
    method Advance(fd: nat, file: File, n: Word)
      requires Inv() && mode == UserMode && fd < FD_MAX && file.offset <= file.size
      modifies `procs
      ensures Inv() && |procs| == MAX_PROCS && |old(procs)[cur].files| == FD_MAX
      ensures procs == old(procs)[cur := WithA0(WithFile(old(procs)[cur], fd, file), n)]
      ensures procs[cur].pid == old(procs)[cur].pid && procs[cur].state == RUNNING
    {
      hide State.Good, Forest, OnScreen, SlotOk, LogOk, GoodDisk;
      SetFile(fd, file);
      Return(n);
    }

    /** A copy to the current process's memory, for the whole kernel's invariant. */
    method CopyToUser(root: nat, buffer: nat, ghost size: nat, bytes: seq<byte>)
      requires Inv() && mode == UserMode && root == procs[cur].root && |bytes| <= size < Ramdisk.LIMIT32
      requires RangeOk(vm.mem, root, buffer, size, PTE_W)
      modifies vm`mem
      ensures Inv() && vm.mem == StoreBytes(old(vm.mem), root, buffer, bytes)
      ensures OthersKeep(old(vm.mem), vm.owner, vm.mem, root)
    {
      hide State.Good, Forest, OnScreen, SlotOk, LogOk, GoodDisk, RangeOk, StoreBytes;
      LiveSlot(Whole(), cur);
      CopyOut(vm, root, buffer, size, bytes);
      BytesStored(old(vm.mem), vm.owner, root, buffer, size, bytes);
      UserStoreKeepsGood(Whole().(mem := old(vm.mem)), vm.mem, cur);
    }

    ghost predicate RamdiskResult(t: Table, who: nat, fd: nat, mem0: Mem)
      reads this, vm
    {
      |t| == MAX_PROCS && FileRead(img, t, mem0, procs, vm.mem, who, fd)
    }

    /** When SYS_READ has bytes for a buffer that the kernel cannot reach. */
    ghost predicate ReadFaults(mem: Mem, p: Proc, e: Editor)
      requires p.root >= 0 && |p.files| == FD_MAX
    {
      && Refused(mem, p, PTE_W, 0) && OutOfReach(p) && IsOpen(p.files, AsInt(p.tf.a0))
      && if p.files[AsInt(p.tf.a0)].kind == ConsoleFile then !NoInput(e)
         else p.files[AsInt(p.tf.a0)].offset < p.files[AsInt(p.tf.a0)].size
    }

    /** SYS_READ. */
    method SysRead()
      requires Inv() && mode == UserMode
      modifies `procs, `cur, `mode, `scratch, `log, `delivered, vm`mem, vm`satp, ring`rxTail, ring`ed
      ensures Inv() && mode != Off && old(procs)[old(cur)].root >= 0 && |old(procs)[old(cur)].files| == FD_MAX
      ensures mode == Halted <==> ReadFaults(old(vm.mem), old(procs)[old(cur)], old(ring.ed))
      ensures mode != Halted ==>
        exists code :: ReadResult(old(procs), old(cur), old(vm.mem), old(ring.ed), old(delivered), code)
      ensures old(delivered) <= delivered && ring.ed.committed == old(ring.ed).committed
      ensures Turned(old(procs), old(log), old(cur))
      ensures mode != Halted ==>
        Bystanders(old(procs), procs, old(cur), old(nextPid))
      ensures mode != Halted ==> OthersKeep(old(vm.mem), old(vm.owner), vm.mem, old(procs)[old(cur)].root)
    {
      hide State.Good, Forest, OnScreen, SlotOk, LogOk, GoodDisk, Accepts, ConsoleResult, RamdiskResult, Bystanders,
           OthersKeep;
      CurrentFits();
      NothingWritten(vm.mem, vm.owner, procs[cur].root);
      var code := CheckBuffer(PTE_W);
      if code != 0 {
        OneChanged(old(procs), cur, procs[cur], nextPid);
      } else {
        Unrefused(vm.mem, procs[cur], PTE_W);
        var fd := AsInt(procs[cur].tf.a0);
        if procs[cur].files[fd].kind == ConsoleFile { ReadConsole(); } else { ReadRamdisk(fd); }
      }
      assert mode != Halted ==> ReadResult(old(procs), old(cur), old(vm.mem), old(ring.ed), old(delivered), code);
    }

    /** What SYS_READ does, by the kind of file: an error, console input, or the next bytes of a RAMDISK file. */
    ghost predicate ReadResult(t: Table, who: nat, mem0: Mem, e: Editor, before: seq<byte>, code: int)
      requires |t| == MAX_PROCS && who < MAX_PROCS && t[who].root >= 0 && |t[who].files| == FD_MAX
      requires e.taken <= |e.committed|
      reads this, vm, ring
    {
      var (p, fd) := (t[who], AsInt(t[who].tf.a0));
      && Refused(mem0, p, PTE_W, code)
      && if code != 0 then
           && 0 < code <= E_AGAIN && procs == t[who := WithA0(p, Err(code))] && vm.mem == mem0 && ring.ed == e
           && delivered == before
         else if !IsOpen(p.files, fd) then false
         else if p.files[fd].kind == ConsoleFile then ConsoleResult(t, who, mem0, e, before)
         else RamdiskResult(t, who, fd, mem0) && ring.ed == e && delivered == before
    }

    lemma Unrefused(mem: Mem, p: Proc, need: nat)
      requires p.root >= 0 && |p.files| == FD_MAX && Refused(mem, p, need, 0)
      ensures Accepts(mem, p.root, p.tf.a1, p.tf.a2 % Ramdisk.LIMIT32, need) && IsOpen(p.files, AsInt(p.tf.a0))
    {
    }

    // ---- write ----

    /** When SYS_WRITE is to write bytes of a buffer that the kernel cannot reach. */
    ghost predicate WriteFaults(mem: Mem, p: Proc)
      requires p.root >= 0 && |p.files| == FD_MAX
    {
      && Refused(mem, p, PTE_R, 0) && OutOfReach(p) && IsOpen(p.files, AsInt(p.tf.a0))
      && p.files[AsInt(p.tf.a0)].kind == ConsoleFile
    }

    /** SYS_WRITE: to the console only. */
    method SysWrite()
      requires Inv() && mode == UserMode
      modifies `procs, `mode, `tty
      ensures Inv() && old(procs)[cur].root >= 0 && |old(procs)[cur].files| == FD_MAX && |procs| == MAX_PROCS
      ensures mode == if WriteFaults(vm.mem, old(procs)[cur]) then Halted else UserMode
      ensures mode == UserMode ==> exists code :: WriteResult(old(procs), old(tty), code)
    {
      hide State.Good, Forest, OnScreen, SlotOk, LogOk, GoodDisk, Accepts, UserBytes;
      LiveSlot(Whole(), cur);
      var code := CheckBuffer(PTE_R);
      if code == 0 {
        Unrefused(vm.mem, procs[cur], PTE_R);
        WriteFile(AsInt(procs[cur].tf.a0), procs[cur].tf.a2 % Ramdisk.LIMIT32);
      }
      assert mode == UserMode ==> WriteResult(old(procs), old(tty), code);
    }

    /** The rest of SYS_WRITE, for an open file. */
    method WriteFile(fd: nat, size: Word)
      requires Inv() && mode == UserMode && procs[cur].root >= 0 && fd < |procs[cur].files|
      requires size == procs[cur].tf.a2 % Ramdisk.LIMIT32
      requires Accepts(vm.mem, procs[cur].root, procs[cur].tf.a1, size, PTE_R)
      modifies `procs, `mode, `tty
      ensures Inv() && |procs| == MAX_PROCS
      ensures mode ==
        if OutOfReach(old(procs)[cur]) && old(procs)[cur].files[fd].kind == ConsoleFile then Halted else UserMode
      ensures mode == UserMode ==> var p := old(procs)[cur];
        if p.files[fd].kind == ConsoleFile then
          procs == old(procs)[cur := WithA0(p, size)] && tty == old(tty) + UserBytes(vm.mem, p.root, p.tf.a1, size)
        else procs == old(procs)[cur := WithA0(p, Err(E_PERM))] && tty == old(tty)
    {
      hide State.Good, Forest, OnScreen, SlotOk, LogOk, GoodDisk, UserBytes, Accepts, HwTranslate, RangeOk;
      if procs[cur].files[fd].kind != ConsoleFile { Return(Err(E_PERM)); return; }
      if size > 0 {
        BufferReached(size, PTE_R, Load);
        if HwTranslate(vm.mem, vm.satp, procs[cur].tf.a1, Load, false) == -1 { mode := Halted; return; }
      }
      WriteConsole(procs[cur].root, procs[cur].tf.a1, size);
      Return(size);
    }

    /** sbi_putchar of every byte. */
    method WriteConsole(root: nat, buffer: nat, size: nat)
      modifies `tty
      ensures tty == old(tty) + UserBytes(vm.mem, root, buffer, size)
    {
      hide LoadByte;
      for i := 0 to size
        invariant tty == old(tty) + UserBytes(vm.mem, root, buffer, i)
      {
        tty := tty + [LoadByte(vm.mem, root, buffer + i)];
        assert UserBytes(vm.mem, root, buffer, i + 1) ==
          UserBytes(vm.mem, root, buffer, i) + [LoadByte(vm.mem, root, buffer + i)];
      }
    }

    ghost predicate WriteResult(t: Table, before: seq<byte>, code: int)
      requires |t| == MAX_PROCS && cur < MAX_PROCS && t[cur].root >= 0 && |t[cur].files| == FD_MAX
      reads this, vm
    {
      var (p, fd, size) := (t[cur], AsInt(t[cur].tf.a0), t[cur].tf.a2 % Ramdisk.LIMIT32);
      && Refused(vm.mem, p, PTE_R, code)
      && if code != 0 then 0 < code <= E_AGAIN && procs == t[cur := WithA0(p, Err(code))] && tty == before
         else if !IsOpen(p.files, fd) then false
         else
           if p.files[fd].kind == ConsoleFile then
             procs == t[cur := WithA0(p, size)] && tty == before + UserBytes(vm.mem, p.root, p.tf.a1, size)
         else procs == t[cur := WithA0(p, Err(E_PERM))] && tty == before
    }

    /** SYS_PUTCHAR. */
    method SysPutchar()
      requires Inv() && mode == UserMode
      modifies `procs, `tty
      ensures Inv() && |procs| == MAX_PROCS && procs == old(procs)[cur := WithA0(old(procs)[cur], 0)]
      ensures tty == old(tty) + [(old(procs)[cur].tf.a0 % 256) as byte]
    {
      hide State.Good, Forest, OnScreen, SlotOk, LogOk, GoodDisk;
      tty := tty + [(procs[cur].tf.a0 % 256) as byte];
      Return(0);
    }

    // ---- traps ----

    /** The registers in the frame at sscratch; the kernel's own stack pointer there is not the program's to set. */
    method SaveFrame(regs: TrapFrame)
      requires Inv() && mode == UserMode
      modifies `procs
      ensures Inv() && |procs| == MAX_PROCS && procs == old(procs)[cur := WithRegs(old(procs)[cur], regs)]
    {
      hide State.Good, Forest, OnScreen, SlotOk, LogOk, GoodDisk;
      FrameKeepsGood(Whole(), cur, WithRegs(procs[cur], regs).tf);
      procs := procs[scratch := WithRegs(procs[scratch], regs)];
    }

    /**
      An ecall from user mode: sepc moves past it, and a7 says which call. A process that is asleep
      afterwards has in its frame the registers of this very ecall, and will run it again.
     */
    method Ecall(regs: TrapFrame)
      requires Inv() && mode == UserMode
      modifies this, vm`mem, vm`owner, vm`satp, vm.pmm.bitmap, ring`rxTail, ring`ed
      ensures Inv() && old(delivered) <= delivered && ring.ed.committed == old(ring.ed).committed
      ensures Turned(old(procs), old(log), old(cur))
      ensures mode != Halted ==>
        && Bystanders(old(procs), procs, old(cur), old(nextPid))
        && OthersKeep(old(vm.mem), old(vm.owner), vm.mem, old(procs)[old(cur)].root)
      ensures mode != Halted ==> RolesStay(old(procs), old(vm.owner), vm.owner, old(cur))
      ensures old(cur) < |old(procs)| && old(Trapped(regs)).Fits(old(cur))
      ensures SyscallResult(old(Trapped(regs)), old(cur))
      ensures mode != Halted ==> Resumes(old(procs)[old(cur)], regs, old(cur)) && RestStays(old(Now()), regs.a7)
    {
      hide State.Good, Forest, OnScreen, SlotOk, LogOk, GoodDisk, SyscallResult, Bystanders, RolesStay, Turned, Resumes;
      AdvanceRewind(regs);
      SaveFrame(regs);
      SaveFrame(procs[cur].tf.Advanced());
      assert procs == old(procs)[cur := WithRegs(old(procs)[cur], regs.Advanced())];
      Syscall();
      SameLine(old(procs), old(procs)[old(cur) := WithRegs(old(procs)[old(cur)], regs.Advanced())], old(log), old(cur));
      if mode != Halted {
        WhereItGoesOn(old(Trapped(regs)), old(procs)[old(cur)], regs, old(cur));
        OtherFrame(old(procs), old(cur), WithRegs(old(procs)[old(cur)], regs.Advanced()).tf, old(vm.owner), procs,
                   vm.owner, old(nextPid));
      }
    }

    /**
      Where the process in slot `who` goes on after an ecall with registers `regs`. If it sleeps, at that
      very ecall; after a call that returns, at the next instruction with another a0; in a new program,
      at its entry point with an empty stack. No other register changes.
     */
    ghost predicate Resumes(p: Proc, regs: TrapFrame, who: nat)
      reads this
    {
      && who < |procs|
      && var tf := procs[who].tf;
         match procs[who].state
         case ZOMBIE => regs.a7 == 2
         case BLOCKED => (regs.a7 == 5 || regs.a7 == 8) && tf == regs.(kernelSp := p.tf.kernelSp)
         case RUNNING =>
           || tf == regs.(a0 := tf.a0, sepc := (regs.sepc + 4) % WORD_LIMIT, kernelSp := p.tf.kernelSp)
           || (regs.a7 == 4 && exists at: nat {:trigger Magic(img, at)} ::
                 && Magic(img, at) == ELF_NUM
                 && tf == regs.(sepc := LE(img, at + 24, 8) % WORD_LIMIT, sp := 0x4000_0000, kernelSp := p.tf.kernelSp))
         case _ => false
    }

    /** What a call that returns or sleeps leaves alone. */
    ghost predicate RestStays(w: Was, call: Word)
      reads this, vm, ring
    {
      && (call != 1 && call != 9 ==> tty == w.tty)
      && (call != 8 ==> ring.ed == w.ed && delivered == w.delivered)
      && (call != 3 ==> nextPid == w.pid && leaked == w.leaked)
      && (call != 3 && call != 4 && call != 5 && call != 6 ==> vm.owner == w.owner)
      && (call != 3 && call != 4 && call != 6 && call != 8 ==> vm.mem == w.mem)
    }

    lemma WhereItGoesOn(w: Was, p: Proc, regs: TrapFrame, who: nat)
      requires w.Fits(who) && SyscallResult(w, who) && mode != Halted && p.state == RUNNING
      requires w.t[who] == WithRegs(p, regs.Advanced())
      ensures Resumes(p, regs, who)
    {
      hide WaitResult, ReadResult, QuickResult, ReadFaults, Resumes;
      match regs.a7
      case 2 => EndedThere(p, regs, who);
      case 5 =>
        var z: int :| WaitResult(z, w.t, who, w.owner);
        WaitGoesOn(w, p, regs, who, z);
      case 8 =>
        var code: int :| ReadResult(w.t, who, w.mem, w.ed, w.delivered, code);
        ReadGoesOn(w, p, regs, who, code);
      case _ => QuickGoesOn(w, p, regs);
    }

    lemma EndedThere(p: Proc, regs: TrapFrame, who: nat)
      requires who < |procs| && procs[who].state == ZOMBIE && regs.a7 == 2
      ensures Resumes(p, regs, who)
    {
    }

    lemma WaitGoesOn(w: Was, p: Proc, regs: TrapFrame, who: nat, z: int)
      requires w.Fits(who) && p.state == RUNNING && w.t[who] == WithRegs(p, regs.Advanced()) && regs.a7 == 5
      requires WaitResult(z, w.t, who, w.owner)
      ensures Resumes(p, regs, who)
    {
      AdvanceRewind(regs);
    }

    lemma ReadGoesOn(w: Was, p: Proc, regs: TrapFrame, who: nat, code: int)
      requires w.Fits(who) && p.state == RUNNING && w.t[who] == WithRegs(p, regs.Advanced()) && regs.a7 == 8
      requires ReadResult(w.t, who, w.mem, w.ed, w.delivered, code)
      ensures Resumes(p, regs, who)
    {
      hide StoreBytes, LineFor, Slice, Refused;
      AdvanceRewind(regs);
    }

    /** The calls that neither sleep nor end the process give it its next instruction, or exec a new program. */
    lemma QuickGoesOn(w: Was, p: Proc, regs: TrapFrame)
      requires w.Fits(cur) && mode != Halted && p.state == RUNNING && w.t[cur] == WithRegs(p, regs.Advanced())
      requires QuickResult(w) && regs.a7 !in {2, 5, 8}
      ensures Resumes(p, regs, cur)
    {
      hide NoFork, ForkResult, ForkPanics, AllocRefused, ExecResult, SbrkResult, OpenResult, WriteResult, WriteFaults,
           Resumes;
      match regs.a7
      case 3 =>
        if AllocRefused(lay, w.t, w.owner) {
          DeniedGoesOn(w, p, regs);
        } else {
          var child: nat :| child < MAX_PROCS && ForkResult(child, w.t, w.pid, w.mem, w.owner);
          ForkGoesOn(w, p, regs, child);
        }
      case 4 =>
        var entry, res, lost :| ExecResult(w, entry, res, lost);
        ExecGoesOn(w, p, regs, entry, res, lost);
      case 6 =>
        var grown :| SbrkResult(w.t, w.mem, w.owner, grown);
        SbrkGoesOn(w, p, regs, grown);
      case 7 =>
        var entry, fd :| OpenResult(w, entry, fd);
        OpenGoesOn(w, p, regs, entry, fd);
      case 9 =>
        var code :| WriteResult(w.t, w.tty, code);
        WriteGoesOn(w, p, regs, code);
      case _ => ItGoesOn(w, p, regs);
    }

    /** Where a call has changed no register but a0. */
    lemma ItGoesOn(w: Was, p: Proc, regs: TrapFrame)
      requires cur < |w.t| && cur < |procs| && p.state == RUNNING && w.t[cur] == WithRegs(p, regs.Advanced())
      requires procs[cur].state == RUNNING && procs[cur].tf == w.t[cur].tf.(a0 := procs[cur].tf.a0)
      ensures Resumes(p, regs, cur)
    {
    }

    lemma DeniedGoesOn(w: Was, p: Proc, regs: TrapFrame)
      requires w.Fits(cur) && p.state == RUNNING && w.t[cur] == WithRegs(p, regs.Advanced())
      requires NoFork(w.t, w.pid, w.mem, w.owner, w.leaked)
      ensures Resumes(p, regs, cur)
    {
      hide AllocRefused, UsedKeep, Abandoned, Resumes;
      ItGoesOn(w, p, regs);
    }

    lemma ForkGoesOn(w: Was, p: Proc, regs: TrapFrame, child: nat)
      requires w.Fits(cur) && p.state == RUNNING && w.t[cur] == WithRegs(p, regs.Advanced())
      requires ForkResult(child, w.t, w.pid, w.mem, w.owner)
      ensures Resumes(p, regs, cur)
    {
      hide NewProcess, ForkedFrom, Resumes;
      assert !w.t[child].Live() && child != cur;
      ItGoesOn(w, p, regs);
    }

    lemma ExecGoesOn(w: Was, p: Proc, regs: TrapFrame, entry: int, res: Loaded, lost: int)
      requires w.Fits(cur) && p.state == RUNNING && w.t[cur] == WithRegs(p, regs.Advanced()) && regs.a7 == 4
      requires mode != Halted && ExecResult(w, entry, res, lost)
      ensures Resumes(p, regs, cur)
    {
      hide NamedFile, NoExec, StringFaults, Replaced, ExecFrames, FreeFrames, Resumes, Magic, ImageIn, LE, PageHolds;
      if entry < 0 {
        ItGoesOn(w, p, regs);
      } else {
        NewProgram(p, regs, Ramdisk.OffsetOf(img, entry));
      }
    }

    lemma NewProgram(p: Proc, regs: TrapFrame, at: nat)
      requires cur < |procs| && procs[cur].state == RUNNING && regs.a7 == 4 && Magic(img, at) == ELF_NUM
      requires procs[cur].tf == regs.(sepc := EntryPoint(img, at), sp := STACK_TOP, kernelSp := p.tf.kernelSp)
      ensures Resumes(p, regs, cur)
    {
      hide LE;
      Word64Bound(img, at + 24);
    }

    lemma SbrkGoesOn(w: Was, p: Proc, regs: TrapFrame, grown: bool)
      requires w.Fits(cur) && p.state == RUNNING && w.t[cur] == WithRegs(p, regs.Advanced())
      requires SbrkResult(w.t, w.mem, w.owner, grown)
      ensures Resumes(p, regs, cur)
    {
      hide Grown, SameLeaves, CannotGrow, TreeGrowth, Resumes;
      ItGoesOn(w, p, regs);
    }

    lemma OpenGoesOn(w: Was, p: Proc, regs: TrapFrame, entry: int, fd: int)
      requires w.Fits(cur) && p.state == RUNNING && w.t[cur] == WithRegs(p, regs.Advanced())
      requires mode != Halted && OpenResult(w, entry, fd)
      ensures Resumes(p, regs, cur)
    {
      hide NamedFile, StringFaults, IsFreeFd, Resumes;
      ItGoesOn(w, p, regs);
    }

    lemma WriteGoesOn(w: Was, p: Proc, regs: TrapFrame, code: int)
      requires w.Fits(cur) && p.state == RUNNING && w.t[cur] == WithRegs(p, regs.Advanced())
      requires WriteResult(w.t, w.tty, code)
      ensures Resumes(p, regs, cur)
    {
      hide Refused, Resumes, UserBytes;
      ItGoesOn(w, p, regs);
    }

    /** The switch on a7. */
    method Syscall()
      requires Inv() && mode == UserMode
      modifies this, vm`mem, vm`owner, vm`satp, vm.pmm.bitmap, ring`rxTail, ring`ed
      ensures Inv() && old(delivered) <= delivered && ring.ed.committed == old(ring.ed).committed
      ensures Turned(old(procs), old(log), old(cur))
      ensures mode != Halted ==>
        && Bystanders(old(procs), procs, old(cur), old(nextPid))
        && OthersKeep(old(vm.mem), old(vm.owner), vm.mem, old(procs)[old(cur)].root)
      ensures mode != Halted ==> RolesStay(old(procs), old(vm.owner), vm.owner, old(cur))
      ensures mode != Halted ==> RestStays(old(Now()), old(procs)[old(cur)].tf.a7)
      ensures old(Now()).Fits(old(cur)) && SyscallResult(old(Now()), old(cur))
    {
      hide Core, WaitResult, ReadResult, QuickResult, Bystanders, OthersKeep, RolesStay;
      CurrentFits();
      NothingWritten(vm.mem, vm.owner, procs[cur].root);
      NoRoleChanged(procs, vm.owner, cur);
      match procs[cur].tf.a7
      case 2 => ExitCurrent();
      case 5 => var z := SysWait(); assert WaitResult(z, old(procs), old(cur), old(vm.owner));
      case 8 => SysRead();
      case _ => QuickCall(); if mode == UserMode { CurrentFits(); }
    }

    lemma CurrentFits()
      requires Inv() && mode == UserMode
      ensures Now().Fits(cur) && procs[cur].state == RUNNING && procs[cur].brk <= HEAP_MAX
      ensures |vm.mem| == |vm.owner| == TOTAL_PAGES && Forest(vm.mem, vm.owner) && HighUnmapped(vm.mem, procs[cur].root)
    {
      hide State.Good, Forest, OnScreen, SlotOk, LogOk, GoodDisk, SpaceOk;
      LiveSlot(Whole(), cur);
      HeapBounds(vm.mem, vm.owner, lay, procs[cur], cur, bases[cur]);
      SpaceIsLow(vm.mem, vm.owner, lay, procs[cur].root, bases[cur], procs[cur].brk);
    }

    /** What the call in a7 of process `who` came to. */
    ghost predicate SyscallResult(w: Was, who: nat)
      requires w.Fits(who)
      reads this, vm, vm.pmm.bitmap, ring
    {
      match w.t[who].tf.a7
      case 2 => mode != Halted && |procs| == MAX_PROCS && procs[who] == w.t[who].(state := ZOMBIE)
      case 5 => mode != Halted && exists z :: WaitResult(z, w.t, who, w.owner)
      case 8 =>
        if ReadFaults(w.mem, w.t[who], w.ed) then mode == Halted
        else mode != Halted && exists code :: ReadResult(w.t, who, w.mem, w.ed, w.delivered, code)
      case _ => who == cur && QuickResult(w)
    }

    /** The calls that neither sleep nor end the process. */
    method QuickCall()
      requires Inv() && mode == UserMode
      requires procs[cur].tf.a7 !in {2, 5, 8}
      modifies `procs, `nextPid, `mode, `leaked, `bases, `tty, vm`mem, vm`owner, vm`satp, vm.pmm.bitmap
      ensures Inv() && (mode == UserMode || mode == Halted) && old(Now()).Fits(cur) && QuickResult(old(Now()))
      ensures mode == UserMode ==>
        && Bystanders(old(procs), procs, cur, old(nextPid))
        && OthersKeep(old(vm.mem), old(vm.owner), vm.mem, old(procs)[cur].root)
      ensures mode == UserMode ==> RolesStay(old(procs), old(vm.owner), vm.owner, cur)
      ensures mode == UserMode ==> RestStays(old(Now()), old(procs)[cur].tf.a7)
    {
      hide State.Good, Forest, OnScreen, SlotOk, LogOk, GoodDisk, RolesStay, ForkResult, ForkPanics, AllocRefused,
           ExecResult, SbrkResult, OpenResult, WriteResult, NoFork, Executed, NoExec, NamedFile, CannotGrow, TreeGrowth,
           SameLeaves;
      CurrentFits();
      NoRoleChanged(procs, vm.owner, cur);
      match procs[cur].tf.a7
      case 3 =>
        ghost var child := SysFork();
        if mode == UserMode { ForkSpares(child, old(procs), old(nextPid), old(vm.mem), old(vm.owner)); }
      case 4 =>
        ghost var entry, res, lost := ExecCall();
        if mode == UserMode { ExecSpares(old(Now()), entry, res, lost); }
      case 6 =>
        ghost var grown := SbrkCall();
        SbrkSpares(old(procs), old(vm.mem), old(vm.owner), grown);
      case _ => FileCall();
    }

    lemma ForkSpares(child: int, t: Table, pid: nat, mem0: Mem, owner0: Owners)
      requires |t| == MAX_PROCS && cur < MAX_PROCS
      requires child == -1 ==> exists leaked0 :: NoFork(t, pid, mem0, owner0, leaked0)
      requires child != -1 ==> child >= 0 && ForkResult(child, t, pid, mem0, owner0)
      ensures Bystanders(t, procs, cur, pid) && OthersKeep(mem0, owner0, vm.mem, t[cur].root)
      ensures RolesStay(t, owner0, vm.owner, cur)
    {
      hide ForkedFrom, State.Good;
    }

    lemma ExecSpares(w: Was, entry: int, res: Loaded, lost: int)
      requires w.Fits(cur) && mode == UserMode && ExecResult(w, entry, res, lost) && |w.mem| == |w.owner|
      ensures Bystanders(w.t, procs, cur, w.pid) && OthersKeep(w.mem, w.owner, vm.mem, w.t[cur].root)
      ensures RolesStay(w.t, w.owner, vm.owner, cur)
    {
      hide NoExec, NamedFile, Execed, Bystanders, OthersKeep, RolesStay;
      if entry < 0 {
        OneChanged(w.t, cur, procs[cur], w.pid);
        NothingWritten(w.mem, w.owner, w.t[cur].root);
        NoRoleChanged(w.t, w.owner, cur);
      } else {
        var at := Ramdisk.OffsetOf(img, entry);
        ExecSparesOthers(lay, img, Shot(w.t, nextPid, w.mem, w.owner), Shot(procs, nextPid, vm.mem, vm.owner), cur, at,
                         res, lost, w.pid);
      }
    }

    lemma SbrkSpares(t: Table, mem0: Mem, owner0: Owners, grown: bool)
      requires SbrkResult(t, mem0, owner0, grown)
      ensures Bystanders(t, procs, cur, nextPid) && OthersKeep(mem0, owner0, vm.mem, t[cur].root)
      ensures RolesStay(t, owner0, vm.owner, cur)
    {
      hide Grown, SameLeaves, CannotGrow;
    }

    lemma WriteSpares(t: Table, before: seq<byte>)
      requires |t| == MAX_PROCS && cur < MAX_PROCS && t[cur].root >= 0 && |t[cur].files| == FD_MAX
      requires exists code :: WriteResult(t, before, code)
      ensures Bystanders(t, procs, cur, nextPid)
    {
      hide Refused;
    }

    method ExecCall() returns (ghost entry: int, ghost res: Loaded, ghost lost: int)
      requires Inv() && mode == UserMode && procs[cur].tf.a7 == 4
      modifies `procs, `mode, `bases, vm`mem, vm`owner, vm`satp, vm.pmm.bitmap
      ensures Inv() && (mode == UserMode || mode == Halted) && old(Now()).Fits(cur)
      ensures ExecResult(old(Now()), entry, res, lost)
    {
      hide State.Good, Forest, OnScreen, SlotOk, LogOk, GoodDisk, Executed, NoExec, NamedFile;
      CurrentFits();
      entry, res, lost := SysExec();
    }

    method SbrkCall() returns (ghost grown: bool)
      requires Inv() && mode == UserMode
      modifies `procs, vm`mem, vm`owner, vm.pmm.bitmap
      ensures Inv() && mode == UserMode && old(Now()).Fits(cur)
      ensures SbrkResult(old(procs), old(vm.mem), old(vm.owner), grown)
    {
      hide State.Good, Forest, OnScreen, SlotOk, LogOk, GoodDisk, CannotGrow, TreeGrowth, SameLeaves;
      CurrentFits();
      grown := SysSbrk();
    }

    method OpenCall() returns (ghost entry: int, ghost fd: int)
      requires Inv() && mode == UserMode && procs[cur].tf.a7 == 7
      modifies `procs, `mode
      ensures Inv() && (mode == UserMode || mode == Halted) && old(Now()).Fits(cur) && OpenResult(old(Now()), entry, fd)
      ensures mode == UserMode ==> Bystanders(old(procs), procs, cur, old(nextPid))
    {
      hide State.Good, Forest, OnScreen, SlotOk, LogOk, GoodDisk, NamedFile;
      CurrentFits();
      entry, fd := SysOpen();
    }

    /** Those of them that leave memory alone, and the unknown ones. */
    method FileCall()
      requires Inv() && mode == UserMode && procs[cur].tf.a7 !in {2, 3, 4, 5, 6, 8}
      modifies `procs, `mode, `tty
      ensures Inv() && (mode == UserMode || mode == Halted) && old(Now()).Fits(cur) && QuickResult(old(Now()))
      ensures mode == UserMode ==> Bystanders(old(procs), procs, cur, old(nextPid))
      ensures mode == UserMode ==> RestStays(old(Now()), old(procs)[cur].tf.a7)
    {
      hide State.Good, Forest, OnScreen, SlotOk, LogOk, GoodDisk, ForkResult, ForkPanics, AllocRefused, ExecResult,
           SbrkResult, OpenResult, WriteResult, NoFork;
      CurrentFits();
      match procs[cur].tf.a7
      case 1 => SysPutchar();
      case 7 => ghost var entry, fd := OpenCall();
      case 9 => SysWrite(); if mode == UserMode { WriteSpares(old(procs), old(tty)); }
      case 10 => SysClose();
      case _ => mode := Halted;                  // unknown syscall
    }

    /** Each of these calls by its number. */
    ghost predicate QuickResult(w: Was)
      requires w.Fits(cur)
      reads this, vm, vm.pmm.bitmap
    {
      var p := w.t[cur];
      && (p.tf.a7 != 3 ==> leaked == w.leaked)
      && match p.tf.a7
      case 1 => mode == UserMode && procs == w.t[cur := WithA0(p, 0)] && tty == w.tty + [(p.tf.a0 % 256) as byte]
        && vm.mem == w.mem
      case 3 =>
        if ForkPanics(lay, w.t, w.owner, p.root) then mode == Halted
        else if AllocRefused(lay, w.t, w.owner) then mode == UserMode && NoFork(w.t, w.pid, w.mem, w.owner, w.leaked)
        else
          && mode == UserMode && leaked == w.leaked
          && exists child: nat {:trigger ForkResult(child, w.t, w.pid, w.mem, w.owner)} ::
          child < MAX_PROCS && ForkResult(child, w.t, w.pid, w.mem, w.owner)
      case 4 => exists entry, res, lost :: ExecResult(w, entry, res, lost)
      case 6 => mode == UserMode && exists grown :: SbrkResult(w.t, w.mem, w.owner, grown)
      case 7 => exists entry, fd :: OpenResult(w, entry, fd)
      case 9 =>
        if WriteFaults(w.mem, p) then mode == Halted
        else mode == UserMode && exists code :: WriteResult(w.t, w.tty, code)
      case 10 => mode == UserMode && procs ==
        w.t[cur :=
          if IsOpen(p.files, AsInt(p.tf.a0)) then WithA0(WithFile(p, AsInt(p.tf.a0), CLOSED), 0)
          else WithA0(p, Err(E_BADF))]
      case _ => mode == Halted
    }

    ghost predicate ExecResult(w: Was, entry: int, res: Loaded, lost: int)
      requires w.Fits(cur)
      reads this, vm
    {
      var p := w.t[cur];
      && (entry == -4 <==> StringFaults(w.mem, p.root, p.tf.a0))
      && if entry == -4 then
           mode == Halted
         else
           && NamedFile(w.mem, p.root, p.tf.a0, entry)
           && if entry < 0 then
                && mode == UserMode && procs == w.t[cur := WithA0(p, Err(if entry == -1 then E_FAULT else E_NOENT))]
                && vm.mem == w.mem && vm.owner == w.owner
              else if NoExec(w.owner, Ramdisk.OffsetOf(img, entry)) then
                mode == Halted
              else
                mode == UserMode && Executed(w.t, w.mem, w.owner, Ramdisk.OffsetOf(img, entry), res, lost)
    }

    ghost predicate OpenResult(w: Was, entry: int, fd: int)
      requires w.Fits(cur)
      reads this, vm
    {
      var p := w.t[cur];
      && vm.mem == w.mem && (entry == -4 <==> StringFaults(w.mem, p.root, p.tf.a0))
      && if entry == -4 then
           mode == Halted
         else
           && mode == UserMode && (entry == -3 || NamedFile(w.mem, p.root, p.tf.a0, entry))
           && (entry != -1 ==> IsFreeFd(p.files, fd) && (entry == -3 <==> fd == -1))
           && procs == w.t[cur :=
                if entry == -1 then WithA0(p, Err(E_FAULT))
                else if entry == -2 then WithA0(p, Err(E_NOENT))
                else if entry < 0 || !(0 <= fd < FD_MAX) then WithA0(p, Err(E_NOMEM))
                else WithA0(WithFile(p, fd, FileOf(img, entry)), fd)]
    }

    ghost function Now(): Was
      reads this, vm, ring
    {
      Was(procs, nextPid, vm.mem, vm.owner, leaked, tty, ring.ed, delivered)
    }

    /** A name pointer leads to one file at most. */
    lemma OneFile(mem: Mem, root: nat, ptr: nat, entry: int, entry': int)
      requires NamedFile(mem, root, ptr, entry) && NamedFile(mem, root, ptr, entry')
      ensures entry == entry'
    {
      hide UserString, Ramdisk.IsLookup;
      if entry != -1 && entry' != -1 {
        var n :|
          |n| < NAME_MAX && UserString(mem, root, ptr, n)
            && Ramdisk.IsLookup(img, n, if entry == -2 then -1 else entry);
        var n' :|
          |n'| < NAME_MAX && UserString(mem, root, ptr, n')
            && Ramdisk.IsLookup(img, n', if entry' == -2 then -1 else entry');
        OneString(mem, root, ptr, n, n');
        Ramdisk.OneLookup(img, n, if entry == -2 then -1 else entry, if entry' == -2 then -1 else entry');
      }
    }

    /** The calls the kernel panics on. */
    ghost predicate CallPanics(w: Was, who: nat)
      requires who < |w.t| && w.t[who].root >= 0
    {
      var p := w.t[who];
      match p.tf.a7
      case 3 => ForkPanics(lay, w.t, w.owner, p.root)
      case 4 =>
        StringFaults(w.mem, p.root, p.tf.a0) || exists entry: nat {:trigger NamedFile(w.mem, p.root, p.tf.a0, entry)} ::
        NamedFile(w.mem, p.root, p.tf.a0, entry) && NoExec(w.owner, Ramdisk.OffsetOf(img, entry))
      case 7 => StringFaults(w.mem, p.root, p.tf.a0)
      case 8 => |p.files| == FD_MAX && ReadFaults(w.mem, p, w.ed)
      case 9 => |p.files| == FD_MAX && WriteFaults(w.mem, p)
      case _ => !(1 <= p.tf.a7 <= 10)
    }

    lemma WhenItHalts(w: Was, who: nat)
      requires w.Fits(who) && SyscallResult(w, who)
      ensures mode == Halted <==> CallPanics(w, who)
    {
      hide WaitResult, ReadResult, WriteResult, ForkResult, ForkPanics, AllocRefused, NoFork, NoExec, SbrkResult,
           OpenResult, Executed, NamedFile;
      if w.t[who].tf.a7 == 4 {
        var entry, res, lost :| ExecResult(w, entry, res, lost);
        if entry != -4 { ExecCases(w, entry); }
      } else if w.t[who].tf.a7 == 7 {
        var entry, fd :| OpenResult(w, entry, fd);
        OpenHalts(w, entry, fd);
      }
    }

    lemma OpenHalts(w: Was, entry: int, fd: int)
      requires w.Fits(cur) && OpenResult(w, entry, fd)
      ensures mode == Halted <==> StringFaults(w.mem, w.t[cur].root, w.t[cur].tf.a0)
    {
      hide NamedFile, StringFaults;
    }

    lemma ExecCases(w: Was, entry: int)
      requires w.Fits(cur) && w.t[cur].tf.a7 == 4 && NamedFile(w.mem, w.t[cur].root, w.t[cur].tf.a0, entry)
      ensures CallPanics(w, cur) <==>
        StringFaults(w.mem, w.t[cur].root, w.t[cur].tf.a0) ||
          (entry >= 0 && NoExec(w.owner, Ramdisk.OffsetOf(img, entry)))
    {
      hide NoExec, NamedFile;
      forall e: nat | NamedFile(w.mem, w.t[cur].root, w.t[cur].tf.a0, e) ensures e == entry {
        OneFile(w.mem, w.t[cur].root, w.t[cur].tf.a0, e, entry);
      }
    }

    lemma Isolates(st: State, who: int)
      requires Bystanders(st.t, procs, who, st.nextPid) && st.Good() && Forest(st.mem, st.owner)
      requires OthersKeep(st.mem, st.owner, vm.mem, if 0 <= who < |st.t| then st.t[who].root else -1)
      requires who == -1 || (0 <= who < |st.t| && st.t[who].Live())
      ensures Isolated(st.t, st.mem, procs, vm.mem, who)
    {
      hide State.Good, Forest, SlotOk, OthersKeep, SameView;
      forall i {:trigger st.t[i].root} | 0 <= i < |st.t| && i != who && st.t[i].Alive()
        ensures Unharmed(st.t, st.mem, procs, vm.mem, i)
      {
        LiveSlot(st, i);
        if who != -1 { RootsApart(st, i, who); }
        KeptView(st.mem, st.owner, vm.mem, if 0 <= who < |st.t| then st.t[who].root else -1, st.t[i].root);
        assert procs[i].Alive();
      }
    }

    lemma NobodyIsIsolated()
      requires NobodyAlive()
      ensures Isolated(procs, vm.mem, procs, vm.mem, -1)
    {
    }

    /** Nobody sleeps on the ring while there is a committed line to read. */
    lemma NobodyMissesInput(i: nat)
      requires Inv() && (mode == UserMode || mode == Idle) && i < MAX_PROCS && procs[i].state == BLOCKED
      requires procs[i].chan == UartRx
      ensures ring.ed.taken <= |ring.ed.committed| && ring.ed.Unread() == []
    {
      hide Forest, OnScreen, SpacesOk, LedgerOk, LogOk, GoodDisk;
      assert SleepOk(procs, NoInput(ring.ed), i);
    }

    /** Nothing happened yet. */
    lemma AllUnharmed()
      requires Inv() && mode != Halted
      ensures Isolated(procs, vm.mem, procs, vm.mem, -1)
    {
      hide State.Good, Forest, OnScreen, SlotOk, LogOk, GoodDisk, SameView, OthersKeep;
      if mode == Off {
        NobodyIsIsolated();
      } else {
        NothingWritten(vm.mem, vm.owner, -1);
        NoneChanged(procs, -1, nextPid);
        Isolates(Whole(), -1);
      }
    }

    /** Any other exception from user mode ends the program as if it had called exit. */
    method Fault(regs: TrapFrame)
      requires Inv() && mode == UserMode
      modifies `procs, `cur, `mode, `scratch, `log, vm`satp
      ensures Inv() && mode != Halted && Ended(old(Now()), regs, old(cur))
      ensures Bystanders(old(procs), procs, old(cur), old(nextPid)) && Turned(old(procs), old(log), old(cur))
    {
      hide State.Good, Forest, OnScreen, SlotOk, LogOk, GoodDisk, Bystanders, Turned;
      SaveFrame(regs);
      ghost var t1 := procs;
      OneChanged(old(procs), cur, procs[cur], nextPid);
      ExitCurrent();
      StillBystanders(old(procs), t1, procs, old(cur), nextPid);
      SameLine(old(procs), t1, old(log), old(cur));
    }

    // ---- what one event does ----

    /** Nothing but the process table, the ring and the choice of who runs is different. */
    ghost predicate Quiet(w: Was)
      reads this, vm
    {
      && vm.mem == w.mem && vm.owner == w.owner && tty == w.tty && delivered == w.delivered
      && nextPid == w.pid && leaked == w.leaked
    }

    /** The PCB of a process whose registers a trap has saved. */
    function Saved(p: Proc, regs: TrapFrame): Proc { p.(tf := regs.(kernelSp := p.tf.kernelSp)) }

    /** The running process has ended, with these registers. */
    ghost predicate Ended(w: Was, regs: TrapFrame, who: nat)
      reads this, vm, ring
    {
      && who < |w.t| == |procs| && procs[who] == Saved(w.t[who], regs).(state := ZOMBIE)
      && Quiet(w) && ring.ed == w.ed
    }

    /** The running process has stored a byte, and goes on. */
    ghost predicate Stored(w: Was, va: nat, b: byte, who: nat, log0: seq<Pick>)
      reads this, vm, ring
    {
      && who < |w.t| && w.t[who].root >= 0 && HwTranslate(w.mem, w.t[who].root, va, Store, true) != -1
      && vm.mem == StoreByte(w.mem, w.t[who].root, va, b) && LoadByte(vm.mem, w.t[who].root, va) == b
      && procs == w.t && cur == who && log == log0 && mode == UserMode && Quiet(w.(mem := vm.mem)) && ring.ed == w.ed
    }

    /** The running process has its registers saved and is back in line, and the nearest ready one runs. */
    ghost predicate Ticked(w: Was, regs: TrapFrame, who: nat, log0: seq<Pick>)
      reads this, vm, ring
    {
      && who < |w.t| == MAX_PROCS && mode == UserMode && Quiet(w) && ring.ed == w.ed
      && var line := w.t[who := Saved(w.t[who], regs).(state := READY)];
         && cur < MAX_PROCS && IsNextReady(line, who, cur) && procs == line[cur := line[cur].(state := RUNNING)]
         && log == log0 + [Pick(line, who, cur)]
    }

    /** The bytes are typed; if a line was committed the sleepers on the ring are ready; the running process goes on. */
    ghost predicate Typed(w: Was, regs: TrapFrame, bytes: seq<byte>, who: nat, log0: seq<Pick>)
      reads this, vm, ring
    {
      && who < |w.t| && ring.ed == Feed(w.ed, bytes) && cur == who && log == log0 && mode == UserMode && Quiet(w)
      && var t := w.t[who := Saved(w.t[who], regs)];
         procs == if ring.ed.committed != w.ed.committed then Woken(t, UartRx) else t
    }

    /** The state in which the switch on a7 finds the kernel. */
    ghost function AtTheSwitch(w: Was, who: nat, regs: TrapFrame): Was
      requires who < |w.t|
    {
      w.(t := w.t[who := WithRegs(w.t[who], regs.Advanced())])
    }

    /** What an event did, by the state before: `who` was the current process and `mode0` the mode. */
    ghost predicate Effect(ev: Happening, w: Was, mode0: Mode, who: nat, log0: seq<Pick>)
      reads this, vm, vm.pmm.bitmap, ring
    {
      match mode0
      case Halted => mode == Halted
      case Off => mode == Off && procs == w.t && log == log0 && Quiet(w) && ring.ed == w.ed
      case Idle =>
        && ring.ed == Feed(w.ed, if ev.Types? then ev.bytes else []) && Quiet(w) && Idled(w.t, who, log0)
        && (mode == Idle || mode == UserMode)
        && (mode == UserMode <==> ring.ed.committed != w.ed.committed && ReaderAsleep(w.t))
      case UserMode =>
        who < |w.t| &&
        match ev
        case Calls(regs) =>
          && AtTheSwitch(w, who, regs).Fits(who) && SyscallResult(AtTheSwitch(w, who, regs), who)
          && (mode != Halted ==> Resumes(w.t[who], regs, who) && RestStays(w, regs.a7))
        case Faults(regs) => Ended(w, regs, who)
        case Writes(va, b, regs) => Stored(w, va, b, who, log0) || (
            w.t[who].root >= 0 && HwTranslate(w.mem, w.t[who].root, va, Store, true) == -1 && Ended(w, regs, who))
        case Ticks(regs) => Ticked(w, regs, who, log0)
        case Types(regs, bytes) => Typed(w, regs, bytes, who, log0)
        case Strays => mode == Halted
    }

    /** Between traps the program runs; what it can do to memory is store where the hardware lets it. */
    method UserStore(va: nat, b: byte)
      requires Inv() && mode == UserMode && HwTranslate(vm.mem, vm.satp, va, Store, true) != -1
      modifies vm`mem
      ensures Inv() && vm.mem == StoreByte(old(vm.mem), vm.satp, va, b)
      ensures |vm.mem| == |vm.owner| == |old(vm.mem)| && OthersKeep(old(vm.mem), vm.owner, vm.mem, procs[cur].root)
      ensures forall f {:trigger vm.mem[f]} | 0 <= f < |vm.owner| && vm.owner[f] != Node(vm.satp, VpnPath(va)) ::
        vm.mem[f] == old(vm.mem)[f]
      ensures LoadByte(vm.mem, vm.satp, va) == b
    {
      hide State.Good, Forest, OnScreen, SlotOk, LogOk, GoodDisk, StoreByte, HwTranslate, VpnPath, LoadByte;
      LiveSlot(Whole(), cur);
      UserStoreIsConfined(vm.mem, vm.owner, vm.satp, va, b);
      vm.mem := StoreByte(vm.mem, vm.satp, va, b);
      UserStoreKeepsGood(Whole().(mem := old(vm.mem)), vm.mem, cur);
    }

    /**
      The events that halt the machine: an unexpected interrupt, an unknown call, an exec of what is
      no program, and a fork or exec for which there are too few frames.
     */
    ghost predicate Panics(ev: Happening)
      reads this, vm, ring
    {
      mode == UserMode && cur < |procs| && procs[cur].root >= 0 &&
      match ev
      case Strays => true
      case Calls(regs) => CallPanics(Trapped(regs), cur)
      case _ => false
    }

    ghost function Trapped(regs: TrapFrame): Was
      requires cur < |procs|
      reads this, vm, ring
    {
      AtTheSwitch(Now(), cur, regs)
    }

    /** The slot whose program an event finds running, or -1. */
    ghost function Running(): int
      reads this
    {
      if mode == UserMode then cur else -1
    }

    /** The log only grows, and whoever runs was picked since. */
    ghost predicate NewTurn(log0: seq<Pick>)
      reads this
    {
      log0 <= log && (mode == UserMode ==> Picked(log, |log0|, cur))
    }

    /** One event: in user mode a trap or a store, in the idle loop an interrupt; a halted machine stays as it is. */
    method Happen(ev: Happening)
      requires Inv()
      modifies this, vm`mem, vm`owner, vm`satp, vm.pmm.bitmap, ring, ring.rxBuf
      ensures Inv() && old(delivered) <= delivered && old(ring.ed).committed <= ring.ed.committed
      ensures Effect(ev, old(Now()), old(mode), old(cur), old(log))
      ensures mode == Halted <==> old(mode) == Halted || old(Panics(ev))
      ensures mode != Halted ==> |procs| == |old(procs)| && OneEvent(old(Here()), Here(), if ev.Ticks? then 1 else 0)
      ensures old(log) <= log
    {
      hide State.Good, Forest, OnScreen, SlotOk, GoodDisk, Bystanders, OthersKeep, SameView, RolesStay, OrphansStay,
           Effect, Advances, Turned, Isolated, CallPanics, Turns, Picked;
      if mode == UserMode {
        UserEvent(ev);
        if mode != Halted {
          Isolates(old(Whole()), old(cur));
          StepSparesOrphans(old(Whole()), procs, vm.owner, old(cur));
          ComeNearer(old(Here()), ev.Ticks?, old(nextPid));
        }
        OneTurnAtMost(old(procs), old(log), old(cur));
      } else {
        OtherEvent(ev);
      }
    }

    lemma OneTurnAtMost(t: Table, log0: seq<Pick>, cur0: nat)
      requires Turned(t, log0, cur0)
      ensures log0 <= log && if log == log0 then cur == cur0 else Picked(log, |log0|, cur)
    {
    }

    /** An event that finds no program running. */
    method OtherEvent(ev: Happening)
      requires Inv() && mode != UserMode
      modifies `procs, `cur, `mode, `scratch, `log, vm`satp, ring, ring.rxBuf
      ensures Inv() && old(ring.ed).committed <= ring.ed.committed
      ensures Effect(ev, old(Now()), old(mode), old(cur), old(log)) && (mode == Halted <==> old(mode) == Halted)
      ensures mode != Halted ==> |procs| == |old(procs)| && OneEvent(old(Here()), Here(), if ev.Ticks? then 1 else 0)
      ensures old(log) <= log
    {
      hide State.Good, Forest, OnScreen, SlotOk, LogOk, GoodDisk, Effect, OneEvent, Idled, ReaderAsleep, Feed, Core,
           NobodyAlive, NothingRuns;
      if mode == Idle {
        IdleEvent(if ev.Types? then ev.bytes else [], if ev.Ticks? then 1 else 0);
        IdleEffect(ev, old(Now()), old(cur), old(log));
      } else {
        NothingHappens(ev);
        if mode == Off { StillOff(if ev.Ticks? then 1 else 0); }
      }
    }

    /** An event for which nobody was ready and that harmed nobody. */
    lemma NobodyWaited(a: Moment, n: nat)
      requires !a.user && NewTurn(a.log) && Isolated(a.t, a.mem, procs, vm.mem, -1)
      requires OrphansStay(a.t, a.owner, procs, vm.owner)
      requires forall i {:trigger a.t[i].state} | 0 <= i < |a.t| :: a.t[i].state != READY
      ensures OneEvent(a, Here(), n)
    {
      hide Isolated, OrphansStay, Advances;
      NobodyIsReady(a, Here(), n);
    }

    lemma StillOff(n: nat)
      requires mode == Off && NobodyAlive()
      ensures OneEvent(Here(), Here(), n)
    {
      hide OneEvent, OrphansStay, Isolated;
      NobodyIsIsolated();
      AllOrphansStay(procs, vm.owner);
      NobodyWaited(Here(), n);
    }

    lemma NothingHappens(ev: Happening)
      requires mode == Off || mode == Halted
      ensures Effect(ev, Now(), mode, cur, log)
    {
    }

    lemma IdleEffect(ev: Happening, w: Was, who: nat, log0: seq<Pick>)
      requires ring.ed == Feed(w.ed, if ev.Types? then ev.bytes else []) && Quiet(w) && Idled(w.t, who, log0)
      requires mode == Idle || mode == UserMode
      requires mode == UserMode <==> ring.ed.committed != w.ed.committed && ReaderAsleep(w.t)
      ensures Effect(ev, w, Idle, who, log0)
    {
      hide Idled, ReaderAsleep, Feed, SyscallResult;
    }

    /** What happens in schedule's loop. */
    method IdleEvent(bytes: seq<byte>, ghost ticks: nat)
      requires Inv() && mode == Idle
      modifies `procs, `cur, `mode, `scratch, `log, vm`satp, ring, ring.rxBuf
      ensures Inv() && (mode == Idle || mode == UserMode) && old(ring.ed).committed <= ring.ed.committed
      ensures ring.ed == Feed(old(ring.ed), bytes) && Idled(old(procs), old(cur), old(log))
      ensures mode == UserMode <==> ring.ed.committed != old(ring.ed).committed && ReaderAsleep(old(procs))
      ensures |procs| == |old(procs)| && old(log) <= log && OneEvent(old(Here()), Here(), ticks)
    {
      hide State.Good, Forest, OnScreen, SlotOk, LogOk, GoodDisk, Bystanders, OthersKeep, SameView, RolesStay,
           OrphansStay, Feed, ReaderAsleep, Idled, OneEvent, Isolated, Picked;
      NothingWritten(vm.mem, vm.owner, -1);
      NoRoleChanged(procs, vm.owner, -1);
      IdleTurn(bytes);
      Isolates(old(Whole()), -1);
      NoRoleChanged(old(procs), vm.owner, -1);
      StepSparesOrphans(old(Whole()), procs, vm.owner, -1);
      NobodyWaited(old(Here()), ticks);
    }

    /** What happens in user mode. */
    method UserEvent(ev: Happening)
      requires Inv() && mode == UserMode
      modifies this, vm`mem, vm`owner, vm`satp, vm.pmm.bitmap, ring, ring.rxBuf
      ensures Inv() && old(delivered) <= delivered && old(ring.ed).committed <= ring.ed.committed
      ensures Turned(old(procs), old(log), old(cur)) && Effect(ev, old(Now()), UserMode, old(cur), old(log))
      ensures ev.Ticks? ==> log != old(log)
      ensures mode == Halted <==> old(Panics(ev))
      ensures mode != Halted ==>
        && Bystanders(old(procs), procs, old(cur), old(nextPid))
        && OthersKeep(old(vm.mem), old(vm.owner), vm.mem, old(procs)[old(cur)].root)
      ensures mode != Halted ==> RolesStay(old(procs), old(vm.owner), vm.owner, old(cur))
    {
      hide State.Good, Forest, OnScreen, SlotOk, LogOk, GoodDisk, HwTranslate, SyscallResult, Bystanders, OthersKeep,
           RolesStay, Resumes, Turned, Ended, Stored, Ticked, Typed;
      CurrentFits();
      NothingWritten(vm.mem, vm.owner, procs[cur].root);
      NoRoleChanged(procs, vm.owner, cur);
      match ev
      case Calls(regs) => Ecall(regs); WhenItHalts(old(Trapped(regs)), old(cur));
      case Faults(regs) => Fault(regs);
      case Writes(va, b, regs) => WriteEvent(va, b, regs);
      case Ticks(regs) => TimerTrap(regs);
      case Types(regs, bytes) => DeviceTrap(regs, bytes);
      case Strays =>
        mode := Halted;                          // unexpected interrupt
        SamePick(old(procs));
    }

    /** A store of the program, or the page fault it gets instead. */
    method WriteEvent(va: nat, b: byte, regs: TrapFrame)
      requires Inv() && mode == UserMode
      modifies `procs, `cur, `mode, `scratch, `log, vm`mem, vm`satp
      ensures Inv() && mode != Halted && Turned(old(procs), old(log), old(cur))
      ensures old(cur) < |old(procs)| && old(procs)[old(cur)].root >= 0
      ensures if HwTranslate(old(vm.mem), old(procs)[old(cur)].root, va, Store, true) != -1
              then Stored(old(Now()), va, b, old(cur), old(log)) else Ended(old(Now()), regs, old(cur))
      ensures Bystanders(old(procs), procs, old(cur), old(nextPid))
      ensures OthersKeep(old(vm.mem), vm.owner, vm.mem, old(procs)[old(cur)].root)
    {
      hide State.Good, Forest, OnScreen, SlotOk, LogOk, GoodDisk, HwTranslate, Bystanders, OthersKeep, StoreByte,
           LoadByte;
      CurrentFits();
      NothingWritten(vm.mem, vm.owner, procs[cur].root);
      if HwTranslate(vm.mem, vm.satp, va, Store, true) != -1 { UserStore(va, b); NoneChanged(procs, cur, nextPid); }
      else { Fault(regs); }
    }

    method TimerTrap(regs: TrapFrame)
      requires Inv() && mode == UserMode
      modifies `procs, `cur, `mode, `scratch, `log, vm`satp
      ensures Inv() && mode == UserMode && Ticked(old(Now()), regs, old(cur), old(log)) && log != old(log)
      ensures Bystanders(old(procs), procs, old(cur), old(nextPid)) && Turned(old(procs), old(log), old(cur))
    {
      hide State.Good, Forest, OnScreen, SlotOk, LogOk, GoodDisk, Bystanders, IsNextReady, Ticked, Turned;
      SaveFrame(regs);
      ghost var t1 := procs;
      OneChanged(old(procs), cur, procs[cur], nextPid);
      TimerTick();
      PickSpares(t1, old(cur), procs, cur, nextPid);
      StillBystanders(old(procs), t1, procs, old(cur), nextPid);
      ItTicked(old(Now()), regs, old(cur), old(log), t1);
    }

    lemma ItTicked(w: Was, regs: TrapFrame, who: nat, log0: seq<Pick>, t1: Table)
      requires who < |w.t| == MAX_PROCS && mode == UserMode && Quiet(w) && ring.ed == w.ed
      requires w.t[who].state == RUNNING && t1 == w.t[who := WithRegs(w.t[who], regs)]
      requires var line := t1[who := t1[who].(state := READY)];
        && IsNextReady(line, who, cur) && cur < MAX_PROCS && procs == line[cur := line[cur].(state := RUNNING)]
        && log == log0 + [Pick(line, who, cur)]
      ensures Ticked(w, regs, who, log0) && Turned(w.t, log0, who) && log != log0
    {
      hide IsNextReady;
      assert t1[who := t1[who].(state := READY)] == w.t[who := Saved(w.t[who], regs).(state := READY)];
    }

    method DeviceTrap(regs: TrapFrame, bytes: seq<byte>)
      requires Inv() && mode == UserMode
      modifies `procs, ring, ring.rxBuf
      ensures Inv() && mode == UserMode && cur == old(cur) && Typed(old(Now()), regs, bytes, cur, old(log))
      ensures Turned(old(procs), old(log), cur)
      ensures Bystanders(old(procs), procs, cur, old(nextPid)) && old(ring.ed).committed <= ring.ed.committed
    {
      hide State.Good, Forest, OnScreen, SlotOk, LogOk, GoodDisk, Bystanders, Woken, Feed;
      SaveFrame(regs);
      ghost var t1 := procs;
      OneChanged(old(procs), cur, procs[cur], nextPid);
      DeviceInterrupt(bytes);
      WakeSpares(t1, procs, UartRx, nextPid);
      StillBystanders(old(procs), t1, procs, cur, nextPid);
    }

    // ---- runs ----

    ghost function Here(): Moment
      reads this, vm
    {
      Moment(procs, vm.mem, vm.owner, log, cur, mode == UserMode)
    }

    lemma ComeNearer(a: Moment, tick: bool, pid: nat)
      requires Inv() && mode != Halted && |a.t| == MAX_PROCS && a.cur < MAX_PROCS
      requires Turned(a.t, a.log, a.cur) && Bystanders(a.t, procs, a.cur, pid) && (tick ==> log != a.log)
      ensures Advances(a, Here(), if tick then 1 else 0)
    {
      hide State.Good, Forest, OnScreen, SlotOk, GoodDisk, Dist;
      var n := if tick then 1 else 0;
      forall j: nat {:trigger Nearer(a, Here(), n, j)} | j < |a.t| && j != a.cur && a.t[j].state == READY
        ensures Nearer(a, Here(), n, j)
      {
        assert procs[j].Runnable();
        if log != a.log {
          var p := log[|a.log|];
          assert p.Fair() && p.line[j].state == READY;
          PickComesNearer(p.line, a.cur, cur, j);
          assert cur == j ==> Picked(log, |a.log|, j);
        }
      }
    }

    /** How many of the events are ticks. */
    ghost function Ticks(evs: seq<Happening>): nat {
      if evs == [] then 0 else Ticks(evs[..|evs| - 1]) + (if evs[|evs| - 1].Ticks? then 1 else 0)
    }

    lemma OneMoreTick(evs: seq<Happening>, k: nat)
      requires k < |evs|
      ensures Ticks(evs[..k + 1]) == Ticks(evs[..k]) + (if evs[k].Ticks? then 1 else 0)
    {
      assert evs[..k + 1][..k] == evs[..k];
    }

    /** Who is ready waits for a turn only while a program runs. */
    lemma ItBegins()
      requires Inv() && mode != Halted
      ensures SoFar(Here(), Here(), Ticks([]))
    {
      hide State.Good, Forest, OnScreen, SlotOk, LogOk, GoodDisk, SoFar, Isolated, Advances;
      AllUnharmed();
      NoTicksYet(Here());
      NoEventYet(Here());
    }

    /**
      Whole runs: whatever programs and terminals do, in any order, the invariant holds after every
      event, and the console reads together have delivered a prefix of what was committed. A process
      that neither ran at the start nor was picked since finds itself and its memory as they were. A
      process that is ready is picked before the timer has ticked as often as there are slots to it,
      and an orphan keeps its slot and its frames for good.
     */
    method Run(evs: seq<Happening>)
      requires Inv()
      modifies this, vm`mem, vm`owner, vm`satp, vm.pmm.bitmap, ring, ring.rxBuf
      ensures Inv() && old(delivered) <= delivered && old(ring.ed).committed <= ring.ed.committed && old(log) <= log
      ensures mode == UserMode || mode == Idle ==> delivered <= ring.ed.committed && LogOk(log, cur)
      ensures mode != Halted ==> forall j: nat {:trigger Picked(log, |old(log)|, j)} |
        j < |old(procs)| && old(procs)[j].Alive() && j != old(Running()) && !Picked(log, |old(log)|, j) ::
          Unharmed(old(procs), old(vm.mem), procs, vm.mem, j)
      ensures mode != Halted ==> forall j: nat {:trigger Picked(log, |old(log)|, j)} |
        && j < |old(procs)| && old(procs)[j].state == READY && j != old(cur)
        && j < MAX_PROCS && old(cur) < MAX_PROCS && Ticks(evs) >= Dist(old(cur), j) ::
          Picked(log, |old(log)|, j)
      ensures mode != Halted ==> OrphansStay(old(procs), old(vm.owner), procs, vm.owner)
    {
      hide State.Good, Forest, OnScreen, SlotOk, LogOk, GoodDisk, Unharmed, Picked, Panics, OrphansStay, Effect,
           OneEvent, SoFar, Dist, Ticks;
      if mode != Halted { ItBegins(); }
      for k := 0 to |evs|
        invariant Inv() && old(delivered) <= delivered && old(ring.ed).committed <= ring.ed.committed && old(log) <= log
        invariant mode != Halted ==> |procs| == |old(procs)| && SoFar(old(Here()), Here(), Ticks(evs[..k]))
      {
        ghost var before := Here();
        Happen(evs[k]);
        OneMoreTick(evs, k);
        if mode != Halted {
          OneMoreEvent(old(Here()), before, Here(), Ticks(evs[..k]), if evs[k].Ticks? then 1 else 0);
        }
      }
      assert evs[..|evs|] == evs;
      if mode != Halted { AllTurnsCome(old(Here()), Here(), Ticks(evs)); }
    }

    /** In any run a process that is ready at MAX_PROCS picks in a row is one of those picked. */
    lemma ReadyGetsItsTurn(from: nat, j: nat)
      requires Inv() && (mode == UserMode || mode == Idle) && j < MAX_PROCS && from + MAX_PROCS <= |log|
      requires forall n {:trigger log[n].line} | from <= n < from + MAX_PROCS ::
        |log[n].line| == MAX_PROCS && log[n].line[j].state == READY
      ensures Picked(log[..from + MAX_PROCS], from, j)
    {
      hide State.Good, Forest, OnScreen, SlotOk, GoodDisk, Turns;
      var part := log[from..from + MAX_PROCS];
      Stretch(log, from, from + MAX_PROCS);
      forall n {:trigger part[n].line} | 0 <= n < |part|
        ensures |part[n].line| == MAX_PROCS && part[n].line[j].state == READY
      {
        assert part[n].line == log[from + n].line;
      }
      FirstIsFair(part);
      BoundedWaiting(part, j);
      var n :| 0 <= n < Dist(part[0].from, j) && part[n].slot == j;
      assert log[..from + MAX_PROCS][from + n].slot == j;
    }
  }
}
