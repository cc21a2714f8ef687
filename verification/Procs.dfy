/** The process table of kernel/proc/process.c: states, wait channels and the scheduler's choice. */
module Procs {
  import opened Sv39

  const MAX_PROCS := 64
  const FD_MAX := 16

  datatype PState = UNUSED | READY | RUNNING | BLOCKED | ZOMBIE

  /** The kernel addresses processes sleep on: the UART's ring and a process's own PCB. */
  datatype Chan = NoChan | UartRx | Pcb(slot: nat)

  datatype FileKind = Closed | ConsoleFile | RamdiskFile

  /** `data` is where in the RAMDISK image the file's bytes start. */
  datatype File = File(kind: FileKind, offset: nat, size: nat, data: nat)

  const CLOSED := File(Closed, 0, 0, 0)

  /** The registers system calls use; `rest` stands for all the others. */
  datatype TrapFrame = TrapFrame(a0: Word, a1: Word, a2: Word, a7: Word, sepc: Word, sp: Word, kernelSp: nat,
                                 rest: seq<Word>) {
    /** `sepc += 4`, past the ecall, and `sepc -= 4`, back to it. */
    function Advanced(): TrapFrame { this.(sepc := (sepc + 4) % WORD_LIMIT) }
    function Rewound(): TrapFrame { this.(sepc := (sepc + WORD_LIMIT - 4) % WORD_LIMIT) }
  }

  const ZERO_FRAME := TrapFrame(0, 0, 0, 0, 0, 0, 0, [])

  /** `root` and `kstack` are frames, -1 for a null pointer. */
  datatype Proc = Proc(pid: nat, state: PState, root: int, kstack: int, tf: TrapFrame, parent: nat,
                       brk: nat, max: nat, chan: Chan, files: seq<File>) {
    predicate Live() { state != UNUSED }
    /** Neither gone nor waiting to be reaped. */
    predicate Alive() { state != UNUSED && state != ZOMBIE }
    predicate Runnable() { state == READY || state == RUNNING }
  }

  type Table = seq<Proc>

  // ---- wakeup ----

  /** The table after everyone asleep on `chan` was made ready. */
  function Woken(t: Table, chan: Chan): (t': Table)
    ensures |t'| == |t|
    ensures forall i {:trigger t'[i]} | 0 <= i < |t| ::
      t'[i] == if t[i].state == BLOCKED && t[i].chan == chan then t[i].(state := READY, chan := NoChan) else t[i]
  {
    seq(|t|, i requires 0 <= i < |t| =>
      if t[i].state == BLOCKED && t[i].chan == chan then t[i].(state := READY, chan := NoChan) else t[i])
  }

  // ---- find_ready ----

  /** Slots to the right of `from` in scan order: the slot just after it is at distance 1, itself at MAX_PROCS. */
  function Dist(from: nat, j: nat): (d: nat)
    requires from < MAX_PROCS && j < MAX_PROCS
    ensures 1 <= d <= MAX_PROCS
  {
    if j > from then j - from else j + MAX_PROCS - from
  }

  /** What find_ready returns: the ready slot nearest after `from`, or -1. */
  ghost predicate IsNextReady(t: Table, from: nat, r: int)
    requires |t| == MAX_PROCS && from < MAX_PROCS
  {
    if r == -1 then forall j | 0 <= j < MAX_PROCS :: t[j].state != READY
    else
      && 0 <= r < MAX_PROCS && t[r].state == READY
      && forall j | 0 <= j < MAX_PROCS && t[j].state == READY :: Dist(from, r) <= Dist(from, j)
  }

  method FindReady(t: Table, from: nat) returns (r: int)
    requires |t| == MAX_PROCS && from < MAX_PROCS
    ensures IsNextReady(t, from, r)
  {
    var idx := from;
    for i := 0 to MAX_PROCS
      invariant idx == (from + i) % MAX_PROCS
      invariant forall j | 0 <= j < MAX_PROCS && Dist(from, j) <= i :: t[j].state != READY
    {
      idx := (idx + 1) % MAX_PROCS;
      assert Dist(from, idx) == i + 1;
      if t[idx].state == READY { return idx; }
    }
    return -1;
  }

  /** Round robin: from the slot after `from` on, around the table, the one taken is the first that is ready. */
  lemma NextInOrder(t: Table, from: nat, r: int)
    requires |t| == MAX_PROCS && from < MAX_PROCS && IsNextReady(t, from, r) && r != -1
    ensures var d := Dist(from, r);
      && 1 <= d <= 64 && r == (from + d) % 64 && t[r].state == READY
      && forall e {:trigger t[(from + e) % 64]} | 1 <= e < d :: t[(from + e) % 64].state != READY
  {
    var d := Dist(from, r);
    forall e {:trigger t[(from + e) % 64]} | 1 <= e < d ensures t[(from + e) % 64].state != READY {
      assert Dist(from, (from + e) % 64) == e;
    }
  }

  method AnyBlocked(t: Table) returns (b: bool)
    ensures b <==> exists i :: 0 <= i < |t| && t[i].state == BLOCKED
  {
    for i := 0 to |t|
      invariant forall j | 0 <= j < i :: t[j].state != BLOCKED
    {
      if t[i].state == BLOCKED { return true; }
    }
    return false;
  }

  /** One pick of the scheduler either takes ready slot `j` or comes strictly nearer to it. */
  lemma PickComesNearer(t: Table, from: nat, r: int, j: nat)
    requires |t| == MAX_PROCS && from < MAX_PROCS && j < MAX_PROCS
    requires IsNextReady(t, from, r) && t[j].state == READY
    ensures 0 <= r < MAX_PROCS && (r == j || Dist(r, j) < Dist(from, j))
  {
  }

  /** One pick of the scheduler: the table it scanned, the slot after which it began, and the slot it took. */
  datatype Pick = Pick(line: Table, from: nat, slot: nat) {
    ghost predicate Fair() { |line| == MAX_PROCS && from < MAX_PROCS && IsNextReady(line, from, slot) && slot >= 0 }
  }

  /** Successive picks: each scan begins after the slot the last one took. */
  ghost predicate Turns(log: seq<Pick>) {
    && (forall n {:trigger log[n].Fair()} | 0 <= n < |log| :: log[n].Fair())
    && forall n {:trigger log[n].from} | 0 < n < |log| :: log[n].from == log[n - 1].slot
  }

  /** The log of a kernel whose current process is `cur`. */
  ghost predicate LogOk(log: seq<Pick>, cur: nat) { Turns(log) && (|log| > 0 ==> log[|log| - 1].slot == cur) }

  lemma EmptyLog(cur: nat)
    ensures LogOk([], cur)
  {
  }

  lemma OneMorePick(log: seq<Pick>, cur: nat, t: Table, r: nat)
    requires LogOk(log, cur) && Pick(t, cur, r).Fair()
    ensures LogOk(log + [Pick(t, cur, r)], r)
  {
    var log' := log + [Pick(t, cur, r)];
    forall n {:trigger log'[n].Fair()} | 0 <= n < |log'| ensures log'[n].Fair() {
      if n < |log| { assert log[n].Fair(); }
    }
    forall n {:trigger log'[n].from} | 0 < n < |log'| ensures log'[n].from == log'[n - 1].slot {
      if n < |log| { assert log[n].from == log[n - 1].slot; }
    }
  }

  lemma FirstIsFair(log: seq<Pick>)
    requires Turns(log) && |log| > 0
    ensures log[0].from < MAX_PROCS
  {
    assert log[0].Fair();
  }

  /** Any stretch of a log is one. */
  lemma Stretch(log: seq<Pick>, lo: nat, hi: nat)
    requires Turns(log) && lo <= hi <= |log|
    ensures Turns(log[lo..hi])
  {
    var part := log[lo..hi];
    forall n {:trigger part[n].Fair()} | 0 <= n < |part| ensures part[n].Fair() { assert log[lo + n].Fair(); }
    forall n {:trigger part[n].from} | 0 < n < |part|
      ensures part[n].from == part[n - 1].slot
    {
      assert log[lo + n].from == log[lo + n - 1].slot;
    }
  }

  /** Bounded waiting: a slot that is ready at every pick is taken within MAX_PROCS picks, whatever the others do. */
  lemma {:induction false} BoundedWaiting(log: seq<Pick>, j: nat)
    requires Turns(log) && |log| > 0 && j < MAX_PROCS && log[0].from < MAX_PROCS && |log| >= Dist(log[0].from, j)
    requires forall n {:trigger log[n].line} | 0 <= n < |log| ::
      |log[n].line| == MAX_PROCS && log[n].line[j].state == READY
    ensures exists n {:trigger log[n].slot} :: 0 <= n < Dist(log[0].from, j) && log[n].slot == j
    decreases |log|
  {
    assert log[0].Fair() && |log[0].line| == MAX_PROCS;
    PickComesNearer(log[0].line, log[0].from, log[0].slot, j);
    if log[0].slot != j {
      var rest := log[1..];
      Stretch(log, 1, |log|);
      assert log[1].from == log[0].slot && rest[0] == log[1];
      forall n {:trigger rest[n].line} | 0 <= n < |rest|
        ensures |rest[n].line| == MAX_PROCS && rest[n].line[j].state == READY
      {
        assert rest[n].line == log[n + 1].line;
      }
      BoundedWaiting(rest, j);
      var n :| 0 <= n < Dist(rest[0].from, j) && rest[n].slot == j;
      assert log[n + 1].slot == j;
    }
  }

  ghost predicate NothingRuns(t: Table) {
    forall i {:trigger t[i].state} | 0 <= i < |t| :: t[i].state != READY && t[i].state != RUNNING
  }

  ghost predicate OnlyRuns(t: Table, cur: nat) {
    forall i {:trigger t[i].state} | 0 <= i < |t| && i != cur :: t[i].state != RUNNING
  }

  /** Somebody sleeps on the console ring. */
  ghost predicate ReaderAsleep(t: Table) { exists i :: 0 <= i < |t| && t[i].state == BLOCKED && t[i].chan == UartRx }

  lemma ReaderIsReady(t: Table, k: nat)
    requires k < |t| && t[k].state == BLOCKED && t[k].chan == UartRx
    ensures Woken(t, UartRx)[k].state == READY
  {
  }

  /** The scan of an idle kernel's table after an interrupt: only a commit can have made someone ready. */
  lemma IdleScan(t: Table, t': Table, woke: bool, from: nat, next: int)
    requires |t| == MAX_PROCS && NothingRuns(t) && (exists i :: 0 <= i < MAX_PROCS && t[i].state == BLOCKED)
    requires t' == (if woke then Woken(t, UartRx) else t) && from < MAX_PROCS && IsNextReady(t', from, next)
    ensures next != -1 <==> woke && ReaderAsleep(t)
    ensures next != -1 ==> 0 <= next < MAX_PROCS && t'[next].state == READY && t'[from].state != RUNNING
    ensures next == -1 ==> NothingRuns(t') && exists i :: 0 <= i < MAX_PROCS && t'[i].state == BLOCKED
  {
    var i :| 0 <= i < MAX_PROCS && t[i].state == BLOCKED;
    if next == -1 {
      assert t'[i].state != READY;
      if woke && ReaderAsleep(t) {
        var k :| 0 <= k < |t| && t[k].state == BLOCKED && t[k].chan == UartRx;
        ReaderIsReady(t, k);
      }
    } else {
      assert t'[next].state == READY;
    }
  }

  /** Whoever but `who` is ready in table `t` is ready in the table that a pick scans. */
  ghost predicate StillReady(t: Table, line: Table, who: nat) {
    && |line| == |t|
    && forall j {:trigger line[j]} | 0 <= j < |t| && j != who && t[j].state == READY :: line[j].state == READY
  }

  // ---- the table invariant ----

  /** Pids of live slots are distinct, in 1..nextPid, and above their parents' pids. */
  ghost predicate PidsOk(t: Table, nextPid: nat)
  {
    && |t| == MAX_PROCS && nextPid > 0
    && (forall i {:trigger t[i].pid} | 0 <= i < MAX_PROCS && t[i].Live() :: t[i].parent < t[i].pid < nextPid)
    && (forall i, j {:trigger t[i].pid, t[j].pid} | 0 <= i < j < MAX_PROCS && t[i].Live() && t[j].Live() ::
      t[i].pid != t[j].pid)
  }

  lemma PidIsUnique(t: Table, nextPid: nat, i: nat, j: nat)
    requires PidsOk(t, nextPid) && i < |t| && j < |t| && t[i].Live() && t[j].Live()
    ensures t[i].pid == t[j].pid ==> i == j
  {
    if i < j { assert t[i].pid != t[j].pid; } else if j < i { assert t[j].pid != t[i].pid; }
  }

  /** `c` is a child of `i` that has not ended. */
  predicate LivingChild(t: Table, i: nat, c: nat) {
    i < |t| && c < |t| && t[c].Alive() && t[c].parent == t[i].pid
  }

  /** `c` is a child of the process with pid `pid`, ended or not. */
  predicate IsChild(t: Table, c: nat, pid: nat) { c < |t| && t[c].Live() && t[c].parent == pid }

  /** Slot `i` sleeps in wait, and `c` is a child of it. */
  predicate WaitsFor(t: Table, i: nat, c: nat) {
    i < |t| && c < |t| && t[i].state == BLOCKED && t[i].chan == Pcb(i) && t[c].parent == t[i].pid
  }

  /** What each sleeper sleeps for has not happened yet: no committed line, or no ended child. */
  ghost predicate SleepOk(t: Table, ringEmpty: bool, i: nat)
    requires i < |t|
  {
    if t[i].state == BLOCKED then
      (t[i].chan == UartRx && ringEmpty) ||
      (t[i].chan == Pcb(i) && exists c: nat {:trigger LivingChild(t, i, c)} :: LivingChild(t, i, c))
    else t[i].chan == NoChan || !t[i].Live()
  }

  ghost predicate SleepersOk(t: Table, ringEmpty: bool) {
    forall i {:trigger SleepOk(t, ringEmpty, i)} | 0 <= i < |t| :: SleepOk(t, ringEmpty, i)
  }

  /**
    No deadlock: when nothing can run but something is blocked, some process waits for the console,
    so input can always wake the system. Waiting for a child leads to a younger process each time.
   */
  lemma {:induction false} SomeoneWaitsForInput(t: Table, nextPid: nat, ringEmpty: bool, i: nat) returns (j: nat)
    requires PidsOk(t, nextPid) && SleepersOk(t, ringEmpty)
    requires forall k | 0 <= k < MAX_PROCS :: t[k].state != READY && t[k].state != RUNNING
    requires i < MAX_PROCS && t[i].state == BLOCKED
    ensures j < MAX_PROCS && t[j].state == BLOCKED && t[j].chan == UartRx && ringEmpty
    decreases nextPid - t[i].pid
  {
    assert SleepOk(t, ringEmpty, i);
    if t[i].chan == UartRx { return i; }
    var c: nat :| LivingChild(t, i, c);
    assert t[c].state == BLOCKED && t[c].pid > t[i].pid && t[c].pid < nextPid;
    j := SomeoneWaitsForInput(t, nextPid, ringEmpty, c);
  }

  // ---- what the moves of the scheduler and of the system calls keep ----

  /** Slot `i` has the same identity, is as alive as before, and sleeps on nothing it did not sleep on before. */
  predicate Moves(p: Proc, p': Proc) {
    && p'.pid == p.pid && p'.parent == p.parent && (p'.Live() <==> p.Live()) && (p'.Alive() <==> p.Alive())
    && (p'.state == BLOCKED ==> p.state == BLOCKED && p'.chan == p.chan)
    && (p'.state != BLOCKED && p'.Live() ==> p'.chan == NoChan)
  }

  lemma MovesKeep(t: Table, t': Table, nextPid: nat, ringEmpty: bool)
    requires PidsOk(t, nextPid) && SleepersOk(t, ringEmpty)
    requires |t'| == |t| && forall i {:trigger t'[i]} | 0 <= i < |t| :: Moves(t[i], t'[i])
    ensures PidsOk(t', nextPid) && SleepersOk(t', ringEmpty)
  {
    forall i | 0 <= i < |t'| ensures SleepOk(t', ringEmpty, i) {
      assert SleepOk(t, ringEmpty, i);
      if t'[i].state == BLOCKED && t'[i].chan != UartRx {
        var c: nat :| LivingChild(t, i, c);
        assert LivingChild(t', i, c);
      }
    }
  }

  /**
    No lost console wakeup: when a line is committed everyone asleep on the ring is made ready, so nobody is
    left asleep on it.
   */
  lemma CommitWakesReaders(t: Table, nextPid: nat, ringEmpty: bool)
    requires PidsOk(t, nextPid) && SleepersOk(t, ringEmpty)
    ensures PidsOk(Woken(t, UartRx), nextPid) && SleepersOk(Woken(t, UartRx), false)
    ensures forall i | 0 <= i < |t| && t[i].state == BLOCKED && t[i].chan == UartRx ::
      Woken(t, UartRx)[i].state == READY
  {
    var t' := Woken(t, UartRx);
    forall i {:trigger t'[i]} | 0 <= i < |t| ensures Moves(t[i], t'[i]) { assert SleepOk(t, ringEmpty, i); }
    MovesKeep(t, t', nextPid, ringEmpty);
    forall i | 0 <= i < |t'| ensures SleepOk(t', false, i) {
      assert SleepOk(t', ringEmpty, i);
    }
  }

  /** The slot exit_current's scan finds for the parent of `cur`: the live slot with that pid, or -1. */
  ghost predicate IsParentSlot(t: Table, cur: nat, p: int)
    requires cur < |t|
  {
    if p == -1 then forall i | 0 <= i < |t| && t[i].Live() :: t[i].pid != t[cur].parent
    else 0 <= p < |t| && t[p].Live() && t[p].pid == t[cur].parent
  }

  lemma SameIdentities(t: Table, t': Table, nextPid: nat)
    requires PidsOk(t, nextPid) && |t'| == |t|
    requires forall i {:trigger t'[i]} | 0 <= i < |t| ::
      t'[i].pid == t[i].pid && t'[i].parent == t[i].parent && (t'[i].Live() <==> t[i].Live())
    ensures PidsOk(t', nextPid)
  {
  }

  /** No lost wait wakeup: a parent asleep for a child is awake once that child has ended. */
  lemma ExitWakesParent(t: Table, nextPid: nat, ringEmpty: bool, cur: nat, p: int)
    requires PidsOk(t, nextPid) && SleepersOk(t, ringEmpty)
    requires cur < MAX_PROCS && t[cur].Live() && t[cur].state != BLOCKED
    requires IsParentSlot(t[cur := t[cur].(state := ZOMBIE)], cur, p)
    ensures var t1 := t[cur := t[cur].(state := ZOMBIE)];
      var t2 := if p == -1 then t1 else Woken(t1, Pcb(p));
      PidsOk(t2, nextPid) && SleepersOk(t2, ringEmpty)
  {
    var t1 := t[cur := t[cur].(state := ZOMBIE)];
    var t2 := if p == -1 then t1 else Woken(t1, Pcb(p));
    SameIdentities(t, t2, nextPid);
    forall i | 0 <= i < |t2| ensures SleepOk(t2, ringEmpty, i) {
      assert SleepOk(t, ringEmpty, i);
      if t2[i].state == BLOCKED && t2[i].chan != UartRx {
        var c: nat :| LivingChild(t, i, c);
        assert c != cur;
        assert LivingChild(t2, i, c);
      }
    }
  }

  /** Reaping an ended child frees its slot and disturbs nobody's sleep. */
  lemma ReapKeeps(t: Table, nextPid: nat, ringEmpty: bool, z: nat, p': Proc)
    requires PidsOk(t, nextPid) && SleepersOk(t, ringEmpty)
    requires z < MAX_PROCS && t[z].state == ZOMBIE && p'.state == UNUSED
    ensures PidsOk(t[z := p'], nextPid) && SleepersOk(t[z := p'], ringEmpty)
  {
    var t' := t[z := p'];
    forall i | 0 <= i < |t'| ensures SleepOk(t', ringEmpty, i) {
      assert SleepOk(t, ringEmpty, i);
      if t'[i].state == BLOCKED && t'[i].chan != UartRx {
        var c: nat :| LivingChild(t, i, c);
        assert LivingChild(t', i, c);
      }
    }
  }

  /** A new process in a free slot, with the next pid and an older parent. */
  lemma SpawnKeeps(t: Table, nextPid: nat, ringEmpty: bool, c: nat, p': Proc)
    requires PidsOk(t, nextPid) && SleepersOk(t, ringEmpty)
    requires c < MAX_PROCS && t[c].state == UNUSED
    requires p'.pid == nextPid && p'.parent < nextPid && p'.state == READY && p'.chan == NoChan
    ensures PidsOk(t[c := p'], nextPid + 1) && SleepersOk(t[c := p'], ringEmpty)
  {
    var t' := t[c := p'];
    forall i | 0 <= i < |t'| ensures SleepOk(t', ringEmpty, i) {
      assert SleepOk(t, ringEmpty, i);
      if t'[i].state == BLOCKED && t'[i].chan != UartRx {
        var k: nat :| LivingChild(t, i, k);
        assert LivingChild(t', i, k);
      }
    }
  }
}
