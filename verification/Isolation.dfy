/** What one process's step leaves alone of every other process. */
module Isolation {
  import opened Sv39
  import opened PageTrees
  import opened Mmu
  import opened Procs
  import opened Invariants
  import opened Steps

  /** Slot `z` holds an ended child of process `who`, which is there for its wait. */
  predicate EndedChild(t: Table, z: nat, who: int) {
    0 <= who < |t| && z < |t| && t[z].state == ZOMBIE && t[z].parent == t[who].pid
  }

  /**
    Every process but the one in slot `who` goes on as it was, up to being woken, put in line or taken
    from it: runnable if it was, and asleep only as it was. An ended one stays as it is, unless it is a
    child of that one. A new process has `pid`.
   */
  ghost predicate Bystanders(t: Table, t': Table, who: int, pid: nat) {
    && |t| == |t'| && (0 <= who < |t| ==> t'[who].pid == t[who].pid)
    && (forall i {:trigger t'[i]} | 0 <= i < |t| && i != who && t[i].Alive() ::
          && t'[i].Alive() && t'[i] == t[i].(state := t'[i].state, chan := t'[i].chan)
          && (t[i].Runnable() ==> t'[i].Runnable())
          && (t'[i].state == BLOCKED ==> t[i].state == BLOCKED && t'[i].chan == t[i].chan))
    && (forall i: nat {:trigger t'[i]} | i < |t| && i != who && t[i].state == ZOMBIE && !EndedChild(t, i, who) ::
      t'[i] == t[i])
    && (forall i {:trigger t'[i]} | 0 <= i < |t| && t'[i].Alive() ::
      t'[i].pid == pid || (t[i].Alive() && t'[i].pid == t[i].pid))
  }

  /** A frame with role `o` is one that process `who` can give up: one of its own tree, or of an ended child. */
  ghost predicate AtStake(t: Table, o: Owner, who: int) {
    && 0 <= who < |t|
    && match o
       case Node(r, _) => r == t[who].root ||
         exists z: nat {:trigger EndedChild(t, z, who)} :: EndedChild(t, z, who) && t[z].root == r
       case Stack(z) => EndedChild(t, z, who)
       case _ => false
  }

  /** Frames in use keep their roles, except those that process `who` can give up. */
  ghost predicate RolesStay(t: Table, owner: Owners, owner': Owners, who: int) {
    && |owner| == |owner'|
    && forall f {:trigger owner'[f]} | 0 <= f < |owner| && owner[f] != Free && !AtStake(t, owner[f], who) ::
         owner'[f] == owner[f]
  }

  /** The frames of every tree but `r` keep their contents. */
  ghost predicate OthersKeep(mem: Mem, owner: Owners, mem': Mem, r: int) {
    && |mem| == |mem'| == |owner|
    && forall f {:trigger mem'[f]} | 0 <= f < |mem| && owner[f].Node? && owner[f].root != r :: mem'[f] == mem[f]
  }

  /** The frames in use keep their contents. */
  ghost predicate UsedKeep(mem: Mem, owner: Owners, mem': Mem) {
    && |mem| == |mem'| == |owner|
    && forall f {:trigger mem'[f]} | 0 <= f < |mem| && owner[f] != Free :: mem'[f] == mem[f]
  }

  /** The user page that `w` maps, if it maps one, holds the same bytes. */
  ghost predicate SamePage(mem: Mem, mem': Mem, w: Word) {
    |mem| == |mem'| == TOTAL_PAGES && (UserLeaf(w) ==> InRam(Target(w)) && mem'[Target(w)] == mem[Target(w)])
  }

  /** Every page of tree `r` translates as it did, and its user pages hold the same bytes. */
  ghost predicate SameView(mem: Mem, mem': Mem, r: nat) {
    forall p {:trigger Entry(mem', r, p)} | PagePath(p) ::
      Entry(mem', r, p) == Entry(mem, r, p) && SamePage(mem, mem', Entry(mem, r, p))
  }

  lemma KeptView(mem: Mem, owner: Owners, mem': Mem, r: int, r': nat)
    requires Forest(mem, owner) && OthersKeep(mem, owner, mem', r) && IsRoot(owner, r') && r' != r
    ensures SameView(mem, mem', r')
  {
    hide V, Leaf, Target, R, W, X, U;
    forall p {:trigger Entry(mem', r', p)} | PagePath(p)
      ensures Entry(mem', r', p) == Entry(mem, r', p) && SamePage(mem, mem', Entry(mem, r', p))
    {
      EntryFrame(mem, mem', owner, r', p);
      EntryRole(mem, owner, r', p);
    }
  }

  lemma SameViews(mem: Mem, mem1: Mem, mem2: Mem, r: nat)
    requires SameView(mem, mem1, r) && SameView(mem1, mem2, r)
    ensures SameView(mem, mem2, r)
  {
    hide UserLeaf, Target, Entry;
    forall p {:trigger Entry(mem2, r, p)} | PagePath(p)
      ensures Entry(mem2, r, p) == Entry(mem, r, p) && SamePage(mem, mem2, Entry(mem, r, p))
    {
      assert Entry(mem1, r, p) == Entry(mem, r, p);
    }
  }

  /**
    Process `j` is alive as it was, with the same registers, files and bounds, the same translations, and
    the same bytes in its user pages.
   */
  ghost predicate Unharmed(t: Table, mem: Mem, t': Table, mem': Mem, j: nat) {
    && j < |t| == |t'| && t'[j].Alive() && t'[j] == t[j].(state := t'[j].state, chan := t'[j].chan)
    && t[j].root >= 0 && SameView(mem, mem', t[j].root)
  }

  /** A step isolates: no process is harmed by it but the one that was running. */
  ghost predicate Isolated(t: Table, mem: Mem, t': Table, mem': Mem, who: int) {
    forall i: nat {:trigger Unharmed(t, mem, t', mem', i)} | i < |t| && i != who && t[i].Alive() ::
      Unharmed(t, mem, t', mem', i)
  }

  lemma StaysUnharmed(t: Table, mem: Mem, t1: Table, mem1: Mem, t2: Table, mem2: Mem, j: nat, who: int)
    requires Unharmed(t, mem, t1, mem1, j) && Isolated(t1, mem1, t2, mem2, who) && j != who
    ensures Unharmed(t, mem, t2, mem2, j)
  {
    hide SameView;
    assert Unharmed(t1, mem1, t2, mem2, j);
    SameViews(mem, mem1, mem2, t[j].root);
  }

  /** Slot `j` was picked since the log had `from` entries. */
  ghost predicate Picked(log: seq<Pick>, from: nat, j: int) {
    exists n {:trigger log[n].slot} :: from <= n < |log| && log[n].slot == j
  }

  lemma StillBystanders(t: Table, t1: Table, t2: Table, who: int, pid: nat)
    requires Bystanders(t, t1, who, pid)
    requires Bystanders(t1, t2, who, pid) || (Bystanders(t1, t2, -1, pid) && (0 <= who < |t1| ==> t1[who].Live()))
    ensures Bystanders(t, t2, who, pid)
  {
    forall i: nat {:trigger t2[i]} | i < |t| && i != who && t[i].state == ZOMBIE && !EndedChild(t, i, who)
      ensures t2[i] == t[i]
    {
      assert t1[i] == t[i];
    }
    forall i {:trigger t2[i]} | 0 <= i < |t| && i != who && t[i].Alive()
      ensures t2[i].Alive() && t2[i] == t[i].(state := t2[i].state, chan := t2[i].chan)
      ensures t[i].Runnable() ==> t2[i].Runnable()
      ensures t2[i].state == BLOCKED ==> t[i].state == BLOCKED && t2[i].chan == t[i].chan
    {
      assert t1[i].Alive();
    }
    forall i {:trigger t2[i]} | 0 <= i < |t| && t2[i].Alive()
      ensures t2[i].pid == pid || (t[i].Alive() && t2[i].pid == t[i].pid)
    {
      assert t2[i].pid == pid || (t1[i].Alive() && t2[i].pid == t1[i].pid);
    }
  }

  /** What the program at the other end of a view sees: the same translations of its accesses, the same bytes. */
  lemma ViewIsWhatItSees(mem: Mem, owner: Owners, mem': Mem, owner': Owners, r: nat, va: nat, acc: Access)
    requires Forest(mem, owner) && IsRoot(owner, r) && Forest(mem', owner') && IsRoot(owner', r)
    requires SameView(mem, mem', r)
    ensures HwTranslate(mem', r, va, acc, true) == HwTranslate(mem, r, va, acc, true)
    ensures HwTranslate(mem, r, va, acc, true) != -1 ==> LoadByte(mem', r, va) == LoadByte(mem, r, va)
  {
    hide V, R, W, X, U, VpnPath, HwTranslate, Target;
    WalkAgrees(mem, owner, r, va, acc, true);
    WalkAgrees(mem', owner', r, va, acc, true);
    EntryRole(mem, owner, r, VpnPath(va));
    assert Entry(mem', r, VpnPath(va)) == Entry(mem, r, VpnPath(va));
  }

  // ---- what the steps change ----

  /** A turn of the scheduler. */
  lemma PickSpares(t: Table, cur: nat, t': Table, next: nat, pid: nat)
    requires cur < |t| && next < |t|
    requires t' == t || (
        && Requeued(t, cur)[next].state == READY
        && t' == Requeued(t, cur)[next := Requeued(t, cur)[next].(state := RUNNING)])
    ensures Bystanders(t, t', -1, pid)
    ensures forall i {:trigger t'[i]} | 0 <= i < |t| && t[i].state == READY ::
      t'[i].state == READY || t'[i].state == RUNNING
    ensures forall i {:trigger t'[i]} | 0 <= i < |t| && !t[i].Runnable() :: t'[i] == t[i]
  {
  }

  lemma WakeSpares(t: Table, t': Table, chan: Chan, pid: nat)
    requires t' == t || t' == Woken(t, chan)
    ensures Bystanders(t, t', -1, pid)
  {
  }

  /** The running process ends, and whoever sleeps on `chan` may be woken. */
  lemma EndSpares(t: Table, who: nat, t': Table, chan: Chan, pid: nat)
    requires who < |t| && t[who].state == RUNNING
    requires var t1 := t[who := t[who].(state := ZOMBIE)]; t' == t1 || t' == Woken(t1, chan)
    ensures Bystanders(t, t', who, pid) && StillReady(t, t', who) && t'[who] == t[who].(state := ZOMBIE)
  {
  }

  lemma ReapSpares(t: Table, z: nat, who: nat, p: Proc, pid: nat)
    requires EndedChild(t, z, who) && p.pid == t[who].pid && t[who].Alive()
    ensures Bystanders(t, t[z := Scrubbed(t[z])][who := p], who, pid)
  {
  }

  /** The frames of the child reaped were at stake, and no other. */
  lemma ReapFrees(t: Table, owner: Owners, z: nat, who: nat)
    requires EndedChild(t, z, who) && 0 <= t[z].kstack < |owner| && owner[t[z].kstack] == Stack(z) && t[z].root >= 0
    ensures RolesStay(t, owner, WithoutTree(owner[t[z].kstack := Free], t[z].root), who)
  {
  }

  lemma NoRoleChanged(t: Table, owner: Owners, who: int)
    ensures RolesStay(t, owner, owner, who)
  {
  }

  lemma SameStake(t: Table, t1: Table, o: Owner, who: nat)
    requires who < |t| == |t1| && t1 == t[who := t[who].(tf := t1[who].tf)] && AtStake(t1, o, who)
    ensures AtStake(t, o, who)
  {
    if o.Node? && o.root != t[who].root {
      var z: nat :| EndedChild(t1, z, who) && t1[z].root == o.root;
      assert EndedChild(t, z, who) && t[z].root == o.root;
    }
  }

  /** Other registers in one process's frame make no difference. */
  lemma OtherFrame(t: Table, who: nat, tf: TrapFrame, owner: Owners, t': Table, owner': Owners, pid: nat)
    requires who < |t|
    requires Bystanders(t[who := t[who].(tf := tf)], t', who, pid)
    requires RolesStay(t[who := t[who].(tf := tf)], owner, owner', who)
    ensures Bystanders(t, t', who, pid) && RolesStay(t, owner, owner', who)
  {
    var t1 := t[who := t[who].(tf := tf)];
    assert forall z: nat {:trigger EndedChild(t, z, who)} {:trigger EndedChild(t1, z, who)} ::
      EndedChild(t, z, who) <==> EndedChild(t1, z, who);
    OneChanged(t, who, t1[who], pid);
    StillBystanders(t, t1, t', who, pid);
    forall f {:trigger owner'[f]} | 0 <= f < |owner| && owner[f] != Free && !AtStake(t, owner[f], who)
      ensures owner'[f] == owner[f]
    {
      if AtStake(t1, owner[f], who) { SameStake(t, t1, owner[f], who); }
    }
  }

  lemma NoneChanged(t: Table, who: int, pid: nat)
    ensures Bystanders(t, t, who, pid)
  {
  }

  lemma OneChanged(t: Table, who: nat, p: Proc, pid: nat)
    requires who < |t| && p.pid == t[who].pid && (p.Alive() ==> t[who].Alive())
    ensures Bystanders(t, t[who := p], who, pid)
  {
  }

  lemma TreeAddedKeeps(mem: Mem, owner: Owners, mem': Mem, owner': Owners, r: int)
    requires Forest(mem, owner) && (if r == -1 then mem' == mem else r >= 0 && NewTree(mem, owner, mem', owner', r))
    ensures UsedKeep(mem, owner, mem')
  {
    hide NodeOk;
  }

  lemma NothingWritten(mem: Mem, owner: Owners, r: int)
    requires |mem| == |owner|
    ensures OthersKeep(mem, owner, mem, r)
  {
  }

  // ---- ended processes that nobody waits for ----

  /** The process in slot `z` has ended, and no living process is its parent. */
  ghost predicate Orphan(t: Table, z: nat) {
    && z < |t| && t[z].state == ZOMBIE
    && forall i {:trigger t[i].pid} | 0 <= i < |t| && t[i].Alive() :: t[i].pid != t[z].parent
  }

  /** Slot `z` is as it was, and so are the roles of the frames of its tree and its kernel stack. */
  ghost predicate LeftBehind(t: Table, owner: Owners, t': Table, owner': Owners, z: nat) {
    && z < |t| == |t'| && |owner| == |owner'| && t'[z] == t[z]
    && forall f {:trigger owner'[f]} | 0 <= f < |owner|
      && (owner[f] == Stack(z) || (owner[f].Node? && owner[f].root == t[z].root)) ::
         owner'[f] == owner[f]
  }

  /** Orphans stay, with all their frames. */
  ghost predicate OrphansStay(t: Table, owner: Owners, t': Table, owner': Owners) {
    forall z: nat {:trigger Orphan(t', z)} {:trigger Orphan(t, z)} | Orphan(t, z) ::
      Orphan(t', z) && LeftBehind(t, owner, t', owner', z)
  }

  lemma StepSparesOrphans(st: State, t': Table, owner': Owners, who: int)
    requires st.Good() && Forest(st.mem, st.owner) && (who == -1 || (0 <= who < |st.t| && st.t[who].Alive()))
    requires Bystanders(st.t, t', who, st.nextPid) && RolesStay(st.t, st.owner, owner', who)
    ensures OrphansStay(st.t, st.owner, t', owner')
  {
    hide State.Good, Forest;
    forall z: nat {:trigger Orphan(t', z)} | Orphan(st.t, z)
      ensures Orphan(t', z) && LeftBehind(st.t, st.owner, t', owner', z)
    {
      OrphanStays(st, t', owner', who, z);
    }
  }

  lemma OrphanStays(st: State, t': Table, owner': Owners, who: int, z: nat)
    requires st.Good() && Forest(st.mem, st.owner) && (who == -1 || (0 <= who < |st.t| && st.t[who].Alive()))
    requires Bystanders(st.t, t', who, st.nextPid) && RolesStay(st.t, st.owner, owner', who) && Orphan(st.t, z)
    ensures Orphan(t', z) && LeftBehind(st.t, st.owner, t', owner', z)
  {
    OldParent(st, z);
    hide State.Good, Forest;
    assert !EndedChild(st.t, z, who);
    forall f {:trigger owner'[f]} | 0 <= f < |st.owner|
      && (st.owner[f] == Stack(z) || (st.owner[f].Node? && st.owner[f].root == st.t[z].root))
      ensures owner'[f] == st.owner[f]
    {
      if 0 <= who < |st.t| {
        RootsApart(st, z, who);
        forall y: nat | EndedChild(st.t, y, who) ensures st.t[y].root != st.t[z].root { RootsApart(st, z, y); }
      }
    }
  }

  lemma OldParent(st: State, z: nat)
    requires st.Good() && z < |st.t| && st.t[z].Live()
    ensures st.t[z].parent < st.nextPid
  {
    hide Forest, SlotOk, SpacesOk, LedgerOk;
  }

  lemma AllOrphansStay(t: Table, owner: Owners)
    ensures OrphansStay(t, owner, t, owner)
  {
  }

  lemma OrphansStayOn(t: Table, owner: Owners, t1: Table, owner1: Owners, t2: Table, owner2: Owners)
    requires OrphansStay(t, owner, t1, owner1) && OrphansStay(t1, owner1, t2, owner2)
    ensures OrphansStay(t, owner, t2, owner2)
  {
    hide Orphan;
    forall z: nat {:trigger Orphan(t2, z)} | Orphan(t, z) ensures Orphan(t2, z) && LeftBehind(t, owner, t2, owner2, z) {
      assert Orphan(t1, z) && LeftBehind(t, owner, t1, owner1, z) && LeftBehind(t1, owner1, t2, owner2, z);
    }
  }

  /** An ended process whose parent has ended too is an orphan. */
  lemma ChildOfTheEnded(t: Table, nextPid: nat, p: nat, z: nat)
    requires PidsOk(t, nextPid) && p < |t| && t[p].state == ZOMBIE && EndedChild(t, z, p)
    ensures Orphan(t, z)
  {
  }

  // ---- waiting for a turn ----

  /** Processes, memory, the log of picks and the current slot at one moment, and whether a program is running. */
  datatype Moment = Moment(t: Table, mem: Mem, owner: Owners, log: seq<Pick>, cur: nat, user: bool) {
    /** The slot of the running program, or -1. */
    function Running(): int { if user then cur else -1 }

    /** Slot `j` is ready, and `d` slots or fewer away from being picked. */
    ghost predicate Within(j: nat, d: int) {
      user && j < |t| == MAX_PROCS && cur < MAX_PROCS && cur != j && t[j].state == READY && Dist(cur, j) <= d
    }
  }

  /** From `a` to `b` slot `j` was picked, or comes no farther from its turn, and nearer by one for each of `ticks`. */
  ghost predicate Nearer(a: Moment, b: Moment, ticks: nat, j: nat) {
    Picked(b.log, |a.log|, j) || (a.cur < MAX_PROCS && j < MAX_PROCS && b.Within(j, Dist(a.cur, j) - ticks))
  }

  /** So it is for everyone who was ready. */
  ghost predicate Advances(a: Moment, b: Moment, ticks: nat) {
    forall j: nat {:trigger Nearer(a, b, ticks, j)} | j < |a.t| && j != a.cur && a.t[j].state == READY ::
      Nearer(a, b, ticks, j)
  }

  lemma NobodyIsReady(a: Moment, b: Moment, ticks: nat)
    requires forall i {:trigger a.t[i].state} | 0 <= i < |a.t| :: a.t[i].state != READY
    ensures Advances(a, b, ticks)
  {
  }

  lemma NoTicksYet(a: Moment)
    requires |a.t| == MAX_PROCS && (a.user ==> a.cur < MAX_PROCS)
    requires a.user || forall i {:trigger a.t[i].state} | 0 <= i < |a.t| :: a.t[i].state != READY
    ensures Advances(a, a, 0)
  {
    forall j: nat {:trigger Nearer(a, a, 0, j)} | j < |a.t| && j != a.cur && a.t[j].state == READY
      ensures Nearer(a, a, 0, j)
    {
      assert a.Within(j, Dist(a.cur, j));
    }
  }

  lemma MoreTicks(a: Moment, b: Moment, c: Moment, n: nat, m: nat)
    requires Advances(a, b, n) && Advances(b, c, m) && a.log <= b.log <= c.log
    ensures Advances(a, c, n + m)
  {
    hide Dist;
    forall j: nat {:trigger Nearer(a, c, n + m, j)} | j < |a.t| && j != a.cur && a.t[j].state == READY
      ensures Nearer(a, c, n + m, j)
    {
      assert Nearer(a, b, n, j);
      if Picked(b.log, |a.log|, j) {
        var k :| |a.log| <= k < |b.log| && b.log[k].slot == j;
        assert c.log[k].slot == j;
      } else {
        assert Nearer(b, c, m, j);
        if Picked(c.log, |b.log|, j) {
          var k :| |b.log| <= k < |c.log| && c.log[k].slot == j;
        }
      }
    }
  }

  /** After as many ticks as slots are between, a ready process has been picked. */
  lemma TurnComes(a: Moment, b: Moment, ticks: nat, j: nat)
    requires Advances(a, b, ticks) && j < |a.t| && j != a.cur && a.t[j].state == READY
    requires a.cur < MAX_PROCS && j < MAX_PROCS && ticks >= Dist(a.cur, j)
    ensures Picked(b.log, |a.log|, j)
  {
    assert Nearer(a, b, ticks, j);
  }

  // ---- one event, and many ----

  /** One event, with `ticks` timer ticks in it: what it leaves alone, and whose turn comes. */
  ghost predicate OneEvent(a: Moment, b: Moment, ticks: nat) {
    && a.log <= b.log
    && (if a.log == b.log then b.Running() == a.Running() || b.Running() == -1
        else b.user ==> Picked(b.log, |a.log|, b.cur))
    && Isolated(a.t, a.mem, b.t, b.mem, a.Running()) && OrphansStay(a.t, a.owner, b.t, b.owner)
    && Advances(a, b, ticks)
  }

  /**
    Many events. Whoever runs ran at the start or was picked; who neither ran at the start nor was
    picked is unharmed; orphans stay; and every tick brings those who are ready nearer to their turn.
   */
  ghost predicate SoFar(a: Moment, b: Moment, ticks: nat) {
    && a.log <= b.log && |a.t| == |b.t|
    && (b.Running() == -1 || b.Running() == a.Running() || Picked(b.log, |a.log|, b.cur))
    && (forall j: nat {:trigger Unharmed(a.t, a.mem, b.t, b.mem, j)} |
          j < |a.t| && a.t[j].Alive() && j != a.Running() && !Picked(b.log, |a.log|, j) ::
            Unharmed(a.t, a.mem, b.t, b.mem, j))
    && OrphansStay(a.t, a.owner, b.t, b.owner) && Advances(a, b, ticks)
  }

  lemma NoEventYet(a: Moment)
    requires Isolated(a.t, a.mem, a.t, a.mem, -1) && Advances(a, a, 0)
    ensures SoFar(a, a, 0)
  {
    hide Unharmed, Advances;
    AllOrphansStay(a.t, a.owner);
  }

  lemma PicksStay(a: Moment, b: Moment, c: Moment, j: int)
    requires a.log <= b.log <= c.log
    ensures Picked(b.log, |a.log|, j) || Picked(c.log, |b.log|, j) ==> Picked(c.log, |a.log|, j)
  {
    if Picked(b.log, |a.log|, j) {
      var k :| |a.log| <= k < |b.log| && b.log[k].slot == j;
      assert c.log[k].slot == j;
    }
  }

  lemma OneMoreEvent(a: Moment, b: Moment, c: Moment, n: nat, m: nat)
    requires SoFar(a, b, n) && OneEvent(b, c, m) && |c.t| == |b.t|
    ensures SoFar(a, c, n + m)
  {
    hide Unharmed, Isolated, OrphansStay, Advances, Picked;
    OrphansStayOn(a.t, a.owner, b.t, b.owner, c.t, c.owner);
    MoreTicks(a, b, c, n, m);
    PicksStay(a, b, c, b.cur);
    PicksStay(a, b, c, c.cur);
    forall j: nat {:trigger Unharmed(a.t, a.mem, c.t, c.mem, j)} |
      j < |a.t| && a.t[j].Alive() && j != a.Running() && !Picked(c.log, |a.log|, j)
      ensures Unharmed(a.t, a.mem, c.t, c.mem, j)
    {
      PicksStay(a, b, c, j);
      assert Unharmed(a.t, a.mem, b.t, b.mem, j);
      StaysUnharmed(a.t, a.mem, b.t, b.mem, c.t, c.mem, j, b.Running());
    }
  }

  /** What that comes to for every slot. */
  lemma AllTurnsCome(a: Moment, b: Moment, ticks: nat)
    requires SoFar(a, b, ticks)
    ensures forall j: nat {:trigger Picked(b.log, |a.log|, j)} |
      && j < |a.t| && a.t[j].state == READY && j != a.cur && j < MAX_PROCS && a.cur < MAX_PROCS
      && ticks >= Dist(a.cur, j) :: Picked(b.log, |a.log|, j)
    ensures forall j: nat {:trigger Picked(b.log, |a.log|, j)} |
      j < |a.t| && a.t[j].Alive() && j != a.Running() && !Picked(b.log, |a.log|, j) ::
        Unharmed(a.t, a.mem, b.t, b.mem, j)
    ensures OrphansStay(a.t, a.owner, b.t, b.owner)
  {
    hide Dist, Advances, OrphansStay, Unharmed, Picked;
    forall j: nat {:trigger Picked(b.log, |a.log|, j)} |
      && j < |a.t| && a.t[j].state == READY && j != a.cur && j < MAX_PROCS && a.cur < MAX_PROCS
      && ticks >= Dist(a.cur, j)
      ensures Picked(b.log, |a.log|, j)
    {
      TurnComes(a, b, ticks, j);
    }
  }
}
