/**
  The frames of one process from the fork that makes it to the wait that reaps it: what its calls
  take, what they give back, and what the two out-of-memory paths keep for good.
 */
module Lives {
  import opened Sv39
  import opened Platform
  import opened PageTrees
  import opened Budget
  import opened Elf
  import opened Spaces
  import opened Invariants
  import opened Steps
  import opened Isolation
  import opened Syscalls

  // ---- one step ----

  /**
    What happens during the life of a process: a call of its own that can only grow its tree, an exec
    of the RAMDISK file at `at`, a fork it is denied, with the process table full or not, or whatever
    others do in between.
   */
  datatype Move = Grow | Exec(at: nat) | ForkDenied(full: bool) | Other
  {
    /**
      The frames it loses for good: the stack page of an exec that finds no frame beyond those it
      needs, and the tree of a denied fork that finds the frames for it and none for a stack.
     */
    ghost function Loss(lay: Layout, img: seq<byte>, owner: Owners): nat {
      match this
      case Exec(at) => if |FreeFrames(owner)| <= ExecFrames(lay, img, at) then 1 else 0
      case ForkDenied(full) => if !full && |FreeFrames(owner)| == SpaceFrames(lay) then SpaceFrames(lay) else 0
      case _ => 0
    }
  }

  /** What sbrk does to the frames: none in use changes its role, free ones may join tree `r`. */
  ghost predicate GrowsIn(owner: Owners, owner': Owners, r: nat) {
    && |owner| == |owner'|
    && forall f {:trigger owner'[f]} | 0 <= f < |owner| ::
         if owner[f] != Free then owner'[f] == owner[f]
         else owner'[f] == Free || (owner'[f].Node? && owner'[f].root == r)
  }

  /** The frames of the process with tree `r` and kernel stack `k`. */
  ghost function Held(owner: Owners, r: nat, k: nat): set<nat> {
    TreeFrames(owner, r) + {k}
  }

  /** One step in the life of a process whose tree is `r`, and `r'` afterwards. */
  ghost predicate LifeStep(lay: Layout, img: seq<byte>, owner: Owners, owner': Owners, r: nat, r': nat, k: nat,
                           move: Move) {
    match move
    case Grow => r' == r && GrowsIn(owner, owner', r)
    case Exec(at) => exists lost {:trigger Replaced(owner, owner', r, r', lost)} ::
      Replaced(owner, owner', r, r', lost) && (lost == -1 <==> |FreeFrames(owner)| > ExecFrames(lay, img, at))
    case ForkDenied(full) =>
      && r' == r && (full || |FreeFrames(owner)| == 0 || |FreeFrames(owner)| == SpaceFrames(lay))
      && if full || NoFree(owner) then owner' == owner
         else exists d: int {:trigger TreeDropped(owner, owner', d)} :: TreeDropped(owner, owner', d)
    case Other => r' == r && |owner'| == |owner| && Held(owner', r, k) == Held(owner, r, k)
  }

  /** A living process with its frames: every tree has its root, `r` is one, and `k` is the stack of slot `c`. */
  ghost predicate Lives(owner: Owners, r: nat, k: nat, c: nat) {
    && IsRoot(owner, r) && k < |owner| && owner[k] == Stack(c)
    && forall f {:trigger owner[f]} | 0 <= f < |owner| && owner[f].Node? :: IsRoot(owner, owner[f].root)
  }

  // ---- the balance ----

  /** What a step adds to the frames that are free or the process's own. */
  ghost function Change(lay: Layout, img: seq<byte>, owner: Owners, owner': Owners, move: Move): int {
    var loss: int := move.Loss(lay, img, owner);
    if move.Other? then |FreeFrames(owner')| - |FreeFrames(owner)| else -loss
  }

  ghost function Changes(lay: Layout, img: seq<byte>, owners: seq<Owners>, moves: seq<Move>): int
    requires |owners| == |moves| + 1
    decreases |moves|
  {
    if moves == [] then 0
    else Change(lay, img, owners[0], owners[1], moves[0]) + Changes(lay, img, owners[1..], moves[1..])
  }

  /** Two ways to divide the same frames. */
  lemma SameTotal(free: set<nat>, held: set<nat>, free': set<nat>, held': set<nat>, gone: set<nat>)
    requires free !! held && free' !! held' !! gone && free + held == free' + held' + gone
    ensures |free| + |held| == |free'| + |held'| + |gone|
  {
    UnionSize(free, held);
    UnionSize(free', held');
    UnionSize(free' + held', gone);
  }

  lemma HeldIsUsed(owner: Owners, r: nat, k: nat)
    requires k < |owner| && owner[k] != Free
    ensures FreeFrames(owner) !! Held(owner, r, k)
  {
  }

  /** Frame `f` is free or the process's own. */
  predicate WithinReach(owner: Owners, r: nat, k: nat, f: nat) {
    f < |owner| && (owner[f] == Free || (owner[f].Node? && owner[f].root == r) || f == k)
  }

  /** A step after which the same frames are free or the process's own, but for those in `gone`. */
  lemma SameReach(owner: Owners, owner': Owners, r: nat, r': nat, k: nat, gone: set<nat>)
    requires k < |owner| == |owner'| && owner[k] != Free && owner'[k] != Free
    requires forall f: nat :: WithinReach(owner, r, k, f) <==> WithinReach(owner', r', k, f) || f in gone
    requires forall f | f in gone :: !WithinReach(owner', r', k, f)
    ensures |FreeFrames(owner')| + |Held(owner', r', k)| + |gone| == |FreeFrames(owner)| + |Held(owner, r, k)|
  {
    HeldIsUsed(owner, r, k);
    HeldIsUsed(owner', r', k);
    Reach(owner, r, k);
    Reach(owner', r', k);
    hide WithinReach, FreeFrames, Held;
    assert forall f: nat ::
      f in FreeFrames(owner) + Held(owner, r, k) <==> f in FreeFrames(owner') + Held(owner', r', k) + gone;
    SameTotal(FreeFrames(owner), Held(owner, r, k), FreeFrames(owner'), Held(owner', r', k), gone);
  }

  lemma Reach(owner: Owners, r: nat, k: nat)
    requires k < |owner|
    ensures forall f: nat :: WithinReach(owner, r, k, f) <==> f in FreeFrames(owner) + Held(owner, r, k)
  {
  }

  lemma GrowBalances(owner: Owners, owner': Owners, r: nat, k: nat, c: nat)
    requires Lives(owner, r, k, c) && GrowsIn(owner, owner', r)
    ensures |FreeFrames(owner')| + |Held(owner', r, k)| == |FreeFrames(owner)| + |Held(owner, r, k)|
  {
    forall f: nat ensures WithinReach(owner, r, k, f) <==> WithinReach(owner', r, k, f) {
      if f < |owner| { assert owner'[f] == owner[f] || owner[f] == Free; }
    }
    hide FreeFrames, Held, WithinReach;
    SameReach(owner, owner', r, r, k, {});
  }

  /** Frame `f` before and after an exec. */
  lemma ExecAt(owner: Owners, owner': Owners, r: nat, r': nat, k: nat, c: nat, lost: int, f: nat)
    requires Lives(owner, r, k, c) && Replaced(owner, owner', r, r', lost)
    ensures WithinReach(owner, r, k, f) <==> WithinReach(owner', r', k, f) || f == lost
    ensures f == lost ==> !WithinReach(owner', r', k, f)
    ensures f == k ==> owner'[f] == owner[f]
  {
    if f < |owner| {
      assert owner'[f] == owner[f] || owner[f] == Free || (owner[f].Node? && owner[f].root == r);
      assert owner[f].Node? ==> owner[f].root != r';
    }
  }

  lemma ExecBalances(owner: Owners, owner': Owners, r: nat, r': nat, k: nat, c: nat, lost: int)
    requires Lives(owner, r, k, c) && Replaced(owner, owner', r, r', lost)
    ensures |FreeFrames(owner')| + |Held(owner', r', k)| + (if lost == -1 then 0 else 1) ==
      |FreeFrames(owner)| + |Held(owner, r, k)|
  {
    assert k < |owner| == |owner'| && owner[k] != Free && (lost == -1 || 0 <= lost < |owner|);
    ExecAt(owner, owner', r, r', k, c, lost, k);
    hide FreeFrames, Held, WithinReach, Lives, Replaced;
    var gone: set<nat> := if lost == -1 then {} else {lost};
    forall f: nat
      ensures WithinReach(owner, r, k, f) <==> WithinReach(owner', r', k, f) || f in gone
      ensures f in gone ==> !WithinReach(owner', r', k, f)
    {
      ExecAt(owner, owner', r, r', k, c, lost, f);
    }
    SameReach(owner, owner', r, r', k, gone);
  }

  lemma DropBalances(owner: Owners, owner': Owners, r: nat, k: nat, c: nat, d: int)
    requires Lives(owner, r, k, c) && TreeDropped(owner, owner', d)
    ensures FreeFrames(owner') == {} && Held(owner', r, k) == Held(owner, r, k)
  {
    forall f: nat ensures f in Held(owner', r, k) <==> f in Held(owner, r, k) {
      if f < |owner| { assert owner'[f] == owner[f] || (owner'[f].Node? && owner'[f].root == d); }
    }
    forall f: nat ensures f !in FreeFrames(owner') {
      if f < |owner| { assert owner'[f] != Free; }
    }
  }

  lemma StepBalances(lay: Layout, img: seq<byte>, owner: Owners, owner': Owners, r: nat, r': nat, k: nat, c: nat,
                     move: Move)
    requires Lives(owner, r, k, c) && LifeStep(lay, img, owner, owner', r, r', k, move)
    ensures |FreeFrames(owner')| + |Held(owner', r', k)|
         == |FreeFrames(owner)| + |Held(owner, r, k)| + Change(lay, img, owner, owner', move)
  {
    hide Lives, Replaced, TreeDropped, GrowsIn, FreeFrames, Held, ExecFrames, SpaceFrames, NoFree;
    match move
    case Grow => GrowBalances(owner, owner', r, k, c);
    case Exec(at) =>
      var lost :|
        Replaced(owner, owner', r, r', lost) && (lost == -1 <==> |FreeFrames(owner)| > ExecFrames(lay, img, at));
      ExecBalances(owner, owner', r, r', k, c, lost);
    case ForkDenied(full) =>
      NoFreeIsZero(owner);
      if !full && !NoFree(owner) {
        var d: int :| TreeDropped(owner, owner', d);
        DropBalances(owner, owner', r, k, c, d);
      }
    case Other =>
  }

  /**
    Whatever happens during the life of a process, and whatever others do meanwhile: the frames free
    or its own change by what the others took or gave, less what its own calls lost.
   */
  lemma {:induction false} LifeBalances(lay: Layout, img: seq<byte>, owners: seq<Owners>, roots: seq<nat>,
                                        moves: seq<Move>, k: nat, c: nat)
    requires |owners| == |roots| == |moves| + 1
    requires forall i {:trigger owners[i]} | 0 <= i < |owners| :: Lives(owners[i], roots[i], k, c)
    requires forall i {:trigger moves[i]} | 0 <= i < |moves| ::
      LifeStep(lay, img, owners[i], owners[i + 1], roots[i], roots[i + 1], k, moves[i])
    ensures |FreeFrames(owners[|moves|])| + |Held(owners[|moves|], roots[|moves|], k)|
         == |FreeFrames(owners[0])| + |Held(owners[0], roots[0], k)| + Changes(lay, img, owners, moves)
    decreases |moves|
  {
    hide LifeStep, Lives, FreeFrames, Held, Change;
    if moves != [] {
      var owners', roots', moves' := owners[1..], roots[1..], moves[1..];
      assert moves[0] in moves && owners[0] in owners;
      StepBalances(lay, img, owners[0], owners[1], roots[0], roots[1], k, c, moves[0]);
      forall i {:trigger moves'[i]} | 0 <= i < |moves'|
        ensures LifeStep(lay, img, owners'[i], owners'[i + 1], roots'[i], roots'[i + 1], k, moves'[i])
      {
        assert moves'[i] == moves[i + 1];
      }
      forall i {:trigger owners'[i]} | 0 <= i < |owners'| ensures Lives(owners'[i], roots'[i], k, c) {
        assert owners'[i] == owners[i + 1];
      }
      LifeBalances(lay, img, owners', roots', moves', k, c);
    }
  }

  // ---- leaving no trace ----

  /**
    Everything in use at `owner0` is as it was. Since then tree `r` and the kernel stack `k` of slot
    `c` came into being, and perhaps frames were lost or given to trees that are whole.
   */
  ghost predicate Private(owner0: Owners, owner: Owners, r: nat, k: nat, c: nat) {
    && |owner0| == |owner| && IsFresh(owner0, r) && IsFresh(owner0, k) && owner[k] == Stack(c) && IsRoot(owner, r)
    && forall f {:trigger owner[f]} | 0 <= f < |owner| ::
         if owner0[f] != Free then owner[f] == owner0[f]
         else f == k || owner[f] == Free || owner[f] == Lost || (owner[f].Node? && IsRoot(owner, owner[f].root))
  }

  /** The frames that were free at `owner0` and are neither free now nor the process's own. */
  ghost function Gone(owner0: Owners, owner: Owners, r: nat, k: nat): set<nat> {
    set f: nat | f < |owner0| && f < |owner| && owner0[f] == Free && owner[f] != Free && f != k
      && !(owner[f].Node? && owner[f].root == r)
  }

  /** The frames after free_proc of a process with kernel stack `k` and tree `r`. */
  function Reaped(owner: Owners, k: nat, r: nat): Owners {
    WithoutTree(if k < |owner| then owner[k := Free] else owner, r)
  }

  /** Nobody else does anything about frames. */
  ghost predicate Undisturbed(owners: seq<Owners>, moves: seq<Move>)
    requires |owners| == |moves| + 1
  {
    forall i {:trigger moves[i]} | 0 <= i < |moves| && moves[i].Other? :: owners[i + 1] == owners[i]
  }

  /** What all the steps lose. */
  ghost function Losses(lay: Layout, img: seq<byte>, owners: seq<Owners>, moves: seq<Move>): nat
    requires |owners| == |moves| + 1
    decreases |moves|
  {
    if moves == [] then 0 else moves[0].Loss(lay, img, owners[0]) + Losses(lay, img, owners[1..], moves[1..])
  }

  lemma GrowIsPrivate(mem0: Mem, owner0: Owners, owner: Owners, owner': Owners, r: nat, k: nat, c: nat)
    requires Forest(mem0, owner0) && Private(owner0, owner, r, k, c) && GrowsIn(owner, owner', r)
    ensures Private(owner0, owner', r, k, c) && Gone(owner0, owner', r, k) == Gone(owner0, owner, r, k)
  {
    hide V, Leaf, Target, EntriesOk, NodeOk;
    forall f {:trigger owner'[f]} | 0 <= f < |owner'|
      ensures if owner0[f] != Free then owner'[f] == owner0[f]
              else
                f == k || owner'[f] == Free || owner'[f] == Lost || (owner'[f].Node? && IsRoot(owner', owner'[f].root))
    {
      assert owner'[r] == owner[r];
      if owner[f].Node? && owner0[f] == Free { assert owner'[owner[f].root] == owner[owner[f].root]; }
    }
    forall f: nat ensures f in Gone(owner0, owner', r, k) <==> f in Gone(owner0, owner, r, k) {
      if f < |owner| { assert owner'[f] == owner[f] || owner[f] == Free; }
    }
  }

  lemma ExecIsPrivate(mem0: Mem, owner0: Owners, owner: Owners, owner': Owners, r: nat, r': nat, k: nat, c: nat,
                      lost: int)
    requires Forest(mem0, owner0) && Private(owner0, owner, r, k, c) && Replaced(owner, owner', r, r', lost)
    ensures Private(owner0, owner', r', k, c)
    ensures Gone(owner0, owner', r', k) == Gone(owner0, owner, r, k) + (if lost == -1 then {} else {lost})
    ensures lost !in Gone(owner0, owner, r, k)
  {
    hide V, Leaf, Target, EntriesOk;
    forall f {:trigger owner'[f]} | 0 <= f < |owner'|
      ensures if owner0[f] != Free then owner'[f] == owner0[f]
              else
                f == k || owner'[f] == Free || owner'[f] == Lost || (owner'[f].Node? && IsRoot(owner', owner'[f].root))
    {
      ExecFrame(mem0, owner0, owner, owner', r, r', k, c, lost, f);
    }
    forall f: nat
      ensures f in Gone(owner0, owner', r', k) <==> f in Gone(owner0, owner, r, k) + (if lost == -1 then {} else {lost})
    {
      if f < |owner| { ExecFrame(mem0, owner0, owner, owner', r, r', k, c, lost, f); }
    }
  }

  /** One frame of that. */
  lemma ExecFrame(mem0: Mem, owner0: Owners, owner: Owners, owner': Owners, r: nat, r': nat, k: nat, c: nat, lost: int,
                  f: nat)
    requires Forest(mem0, owner0) && Private(owner0, owner, r, k, c) && Replaced(owner, owner', r, r', lost)
    requires f < |owner|
    ensures IsFresh(owner0, r') && owner'[k] == Stack(c)
    ensures owner0[f] != Free ==> owner'[f] == owner0[f]
    ensures owner0[f] == Free && f != k && owner'[f].Node? ==> IsRoot(owner', owner'[f].root)
    ensures owner0[f] == Free && f != k ==> owner'[f] == Free || owner'[f] == Lost || owner'[f].Node?
    ensures owner0[f] == Free && f != k ==>
      (owner'[f] != Free && !(owner'[f].Node? && owner'[f].root == r') <==>
        f == lost || (owner[f] != Free && !(owner[f].Node? && owner[f].root == r)))
    ensures f == lost ==> owner0[f] == Free && owner[f] == Free && f != k
  {
    hide V, Leaf, Target, EntriesOk;
    assert owner'[k] == owner[k] && owner'[r'] == Node(r', Top);
    if owner0[f].Node? { FreshRoot(mem0, owner0, f, r); }
    if owner[f].Node? && owner0[f] == Free && owner[f].root != r {
      assert owner'[owner[f].root] == owner[owner[f].root];
    }
  }

  lemma DropIsPrivate(owner0: Owners, owner: Owners, owner': Owners, r: nat, k: nat, c: nat, d: int)
    requires Private(owner0, owner, r, k, c) && TreeDropped(owner, owner', d)
    ensures Private(owner0, owner', r, k, c)
    ensures |Gone(owner0, owner', r, k)| == |Gone(owner0, owner, r, k)| + |FreeFrames(owner)|
  {
    forall f {:trigger owner'[f]} | 0 <= f < |owner'|
      ensures if owner0[f] != Free then owner'[f] == owner0[f]
              else
                f == k || owner'[f] == Free || owner'[f] == Lost || (owner'[f].Node? && IsRoot(owner', owner'[f].root))
    {
      assert owner'[r] == owner[r];
      if owner[f].Node? && owner0[f] == Free { assert owner'[owner[f].root] == owner[owner[f].root]; }
    }
    forall f: nat ensures f in Gone(owner0, owner', r, k) <==> f in Gone(owner0, owner, r, k) + FreeFrames(owner) {
      if f < |owner| {
        assert if owner[f] != Free then owner'[f] == owner[f] else owner'[f].Node? && owner'[f].root == d;
      }
    }
    assert Gone(owner0, owner', r, k) == Gone(owner0, owner, r, k) + FreeFrames(owner);
    UnionSize(Gone(owner0, owner, r, k), FreeFrames(owner));
  }

  lemma StepIsPrivate(lay: Layout, img: seq<byte>, mem0: Mem, owner0: Owners, owner: Owners, owner': Owners, r: nat,
                      r': nat, k: nat, c: nat, move: Move)
    requires Forest(mem0, owner0) && Private(owner0, owner, r, k, c)
    requires LifeStep(lay, img, owner, owner', r, r', k, move)
    requires move.Other? ==> owner' == owner
    ensures Private(owner0, owner', r', k, c)
    ensures |Gone(owner0, owner', r', k)| == |Gone(owner0, owner, r, k)| + move.Loss(lay, img, owner)
  {
    hide Private, Replaced, TreeDropped, GrowsIn, FreeFrames, Held, Gone, ExecFrames, SpaceFrames, NoFree, Forest;
    match move
    case Grow => GrowIsPrivate(mem0, owner0, owner, owner', r, k, c);
    case Exec(at) =>
      var lost :|
        Replaced(owner, owner', r, r', lost) && (lost == -1 <==> |FreeFrames(owner)| > ExecFrames(lay, img, at));
      ExecIsPrivate(mem0, owner0, owner, owner', r, r', k, c, lost);
      if lost != -1 { AddOne(Gone(owner0, owner, r, k), lost); }
    case ForkDenied(full) =>
      NoFreeIsZero(owner);
      if !full && !NoFree(owner) {
        var d: int :| TreeDropped(owner, owner', d);
        DropIsPrivate(owner0, owner, owner', r, k, c, d);
      }
    case Other =>
  }

  lemma AddOne(s: set<nat>, x: nat)
    requires x !in s
    ensures |s + {x}| == |s| + 1
  {
  }

  /** What a life leaves at its end is what was there before it, and the frames its steps lost. */
  lemma {:induction false} WhatIsLeft(lay: Layout, img: seq<byte>, mem0: Mem, owner0: Owners, owners: seq<Owners>,
                                      roots: seq<nat>, moves: seq<Move>, k: nat, c: nat)
    requires Forest(mem0, owner0) && |owners| == |roots| == |moves| + 1 && k < |owner0|
    requires Private(owner0, owners[0], roots[0], k, c) && Undisturbed(owners, moves)
    requires forall i {:trigger moves[i]} | 0 <= i < |moves| ::
      LifeStep(lay, img, owners[i], owners[i + 1], roots[i], roots[i + 1], k, moves[i])
    ensures var (last, r) := (owners[|moves|], roots[|moves|]);
      && Private(owner0, last, r, k, c)
      && |Gone(owner0, last, r, k)| == |Gone(owner0, owners[0], roots[0], k)| + Losses(lay, img, owners, moves)
    decreases |moves|
  {
    if moves != [] {
      hide Gone, Private, Move.Loss, LifeStep;
      assert moves[0] in moves;
      StepIsPrivate(lay, img, mem0, owner0, owners[0], owners[1], roots[0], roots[1], k, c, moves[0]);
      var owners', roots', moves' := owners[1..], roots[1..], moves[1..];
      forall i {:trigger moves'[i]} | 0 <= i < |moves'|
        ensures LifeStep(lay, img, owners'[i], owners'[i + 1], roots'[i], roots'[i + 1], k, moves'[i])
        ensures moves'[i].Other? ==> owners'[i + 1] == owners'[i]
      {
        assert moves'[i] == moves[i + 1];
      }
      WhatIsLeft(lay, img, mem0, owner0, owners', roots', moves', k, c);
    }
  }

  /** Nothing is lost in all exactly when nothing is lost in any step. */
  lemma {:induction false} NoLoss(lay: Layout, img: seq<byte>, owners: seq<Owners>, moves: seq<Move>)
    requires |owners| == |moves| + 1
    ensures Losses(lay, img, owners, moves) == 0 <==>
      forall i {:trigger moves[i]} | 0 <= i < |moves| :: moves[i].Loss(lay, img, owners[i]) == 0
    decreases |moves|
  {
    hide Move.Loss;
    if moves != [] {
      var owners', moves' := owners[1..], moves[1..];
      NoLoss(lay, img, owners', moves');
      if forall i {:trigger moves'[i]} | 0 <= i < |moves'| :: moves'[i].Loss(lay, img, owners'[i]) == 0 {
        forall i {:trigger moves[i]} | 0 < i < |moves| ensures moves[i].Loss(lay, img, owners[i]) == 0 {
          assert moves'[i - 1] == moves[i] && owners'[i - 1] == owners[i];
        }
      } else {
        var i :| 0 <= i < |moves'| && moves'[i].Loss(lay, img, owners'[i]) != 0;
        assert moves[i + 1] == moves'[i] && owners[i + 1] == owners'[i];
      }
    }
  }

  /**
    Fork, any number of calls of the child, its exit and the parent's wait leave every frame with
    the role it had before the fork exactly when no call lost any: when each exec found one frame
    free beyond those its program needs, and no denied fork found just the frames of a kernel tree.
    What the calls did lose is missing for good.
   */
  lemma ChildLeavesNoTrace(lay: Layout, img: seq<byte>, mem0: Mem, owner0: Owners, mem1: Mem, owners: seq<Owners>,
                           roots: seq<nat>, moves: seq<Move>, k: nat, c: nat)
    requires Forest(mem0, owner0) && |owners| == |roots| == |moves| + 1 && Undisturbed(owners, moves)
    requires NewProcess(mem0, owner0, mem1, owners[0], roots[0], k, c)
    requires forall i {:trigger moves[i]} | 0 <= i < |moves| ::
      LifeStep(lay, img, owners[i], owners[i + 1], roots[i], roots[i + 1], k, moves[i])
    ensures var end := Reaped(owners[|moves|], k, roots[|moves|]);
      && (end == owner0 <==> forall i {:trigger moves[i]} | 0 <= i < |moves| :: moves[i].Loss(lay, img, owners[i]) == 0)
      && |FreeFrames(owner0)| == |FreeFrames(end)| + Losses(lay, img, owners, moves)
  {
    hide Forest, LifeStep, Losses, Move.Loss;
    ForkIsPrivate(mem0, owner0, mem1, owners[0], roots[0], k, c);
    hide NewProcess, Undisturbed;
    WhatIsLeft(lay, img, mem0, owner0, owners, roots, moves, k, c);
    NoLoss(lay, img, owners, moves);
    AtTheEnd(mem0, owner0, owners[|moves|], roots[|moves|], k, c);
  }

  lemma AtTheEnd(mem0: Mem, owner0: Owners, last: Owners, r: nat, k: nat, c: nat)
    requires Forest(mem0, owner0) && Private(owner0, last, r, k, c)
    ensures var (end, gone) := (Reaped(last, k, r), Gone(owner0, last, r, k));
      (end == owner0 <==> |gone| == 0) && |FreeFrames(owner0)| == |FreeFrames(end)| + |gone|
  {
    var (end, gone) := (Reaped(last, k, r), Gone(owner0, last, r, k));
    forall f: nat {:trigger end[f]} | f < |owner0|
      ensures end[f] == (if f in gone then last[f] else owner0[f])
      ensures f in gone ==> end[f] != Free && owner0[f] == Free
    {
      hide V, Leaf, Target, EntriesOk;
      assert last[k := Free][f] == if f == k then Free else last[f];
      if owner0[f].Node? { FreshRoot(mem0, owner0, f, r); }
    }
    hide Private, Reaped, Forest;
    assert |end| == |owner0|;
    assert FreeFrames(owner0) == FreeFrames(end) + gone && FreeFrames(end) !! gone;
    UnionSize(FreeFrames(end), gone);
    if gone == {} { assert end == owner0; } else { var f :| f in gone; assert end[f] != owner0[f]; }
  }

  lemma ForkIsPrivate(mem0: Mem, owner0: Owners, mem: Mem, owner: Owners, r: nat, k: nat, c: nat)
    requires NewProcess(mem0, owner0, mem, owner, r, k, c)
    ensures Private(owner0, owner, r, k, c) && Gone(owner0, owner, r, k) == {} && k < |owner0|
  {
  }

  // ---- the same for the system calls themselves ----

  /** Slot `c` is a living process with its frames in order. */
  ghost predicate InLife(a: Shot, c: nat) {
    c < |a.t| && a.t[c].root >= 0 && a.t[c].kstack >= 0 && Lives(a.owner, a.t[c].root, a.t[c].kstack, c)
  }

  /** So it is in every state the invariant holds of. */
  lemma LiveIsInLife(st: State, c: nat)
    requires st.Good() && Forest(st.mem, st.owner) && c < |st.t| && st.t[c].Live()
    ensures InLife(Shot(st.t, st.nextPid, st.mem, st.owner), c)
  {
    hide State.Good, V, Leaf, Target, EntriesOk, SlotOk;
    LiveSlot(st, c);
    forall f {:trigger st.owner[f]} | 0 <= f < |st.owner| && st.owner[f].Node?
      ensures IsRoot(st.owner, st.owner[f].root)
    {
      assert NodeOk(st.mem, st.owner, f);
    }
  }

  /** One move of the process in slot `c`, by the contract of the call it makes. */
  ghost predicate Called(lay: Layout, img: seq<byte>, a: Shot, b: Shot, c: nat, move: Move) {
    match move
    case Grow => exists grown :: Sbrked(a, b, c, grown)
    case Exec(at) =>
      exists res, lost {:trigger Execed(lay, img, a, b, c, at, res, lost)} :: Execed(lay, img, a, b, c, at, res, lost)
    case ForkDenied(full) =>
      full == Full(a.t) && exists r: int {:trigger Denied(lay, a, b, c, r)} :: Denied(lay, a, b, c, r)
    case Other => Elsewhere(a, b, c)
  }

  /** Whatever happens, the process in slot `c` keeps the frames it has, and gets no other. */
  ghost predicate Elsewhere(a: Shot, b: Shot, c: nat) {
    && c < |a.t| && c < |b.t| && a.t[c].root >= 0 && a.t[c].kstack >= 0 && |b.owner| == |a.owner|
    && b.t[c].root == a.t[c].root && b.t[c].kstack == a.t[c].kstack
    && Held(b.owner, a.t[c].root, a.t[c].kstack) == Held(a.owner, a.t[c].root, a.t[c].kstack)
  }

  lemma SbrkIsStep(lay: Layout, img: seq<byte>, a: Shot, b: Shot, c: nat, grown: bool)
    requires InLife(a, c) && Sbrked(a, b, c, grown)
    ensures c < |b.t| && b.t[c].root == a.t[c].root && b.t[c].kstack == a.t[c].kstack
    ensures LifeStep(lay, img, a.owner, b.owner, a.t[c].root, b.t[c].root, a.t[c].kstack, Grow)
  {
    hide Grown, SameLeaves, CannotGrow, Lives;
  }

  lemma ExecIsStep(lay: Layout, img: seq<byte>, a: Shot, b: Shot, c: nat, at: nat, res: Loaded, lost: int)
    requires InLife(a, c) && Execed(lay, img, a, b, c, at, res, lost)
    ensures c < |b.t| && b.t[c].root >= 0 && b.t[c].kstack == a.t[c].kstack
    ensures LifeStep(lay, img, a.owner, b.owner, a.t[c].root, b.t[c].root, a.t[c].kstack, Exec(at))
  {
    hide ProgramIn, ExecFrames, FreeFrames, Lives;
  }

  lemma DeniedIsStep(lay: Layout, img: seq<byte>, a: Shot, b: Shot, c: nat, r: int)
    requires InLife(a, c) && Denied(lay, a, b, c, r)
    ensures c < |b.t| && b.t[c].root == a.t[c].root && b.t[c].kstack == a.t[c].kstack
    ensures LifeStep(lay, img, a.owner, b.owner, a.t[c].root, b.t[c].root, a.t[c].kstack, ForkDenied(Full(a.t)))
  {
    hide FreeFrames, SpaceFrames, Lives, UsedKeep;
  }

  lemma CallIsStep(lay: Layout, img: seq<byte>, a: Shot, b: Shot, c: nat, move: Move)
    requires InLife(a, c) && Called(lay, img, a, b, c, move)
    ensures c < |b.t| && b.t[c].root >= 0 && b.t[c].kstack == a.t[c].kstack
    ensures LifeStep(lay, img, a.owner, b.owner, a.t[c].root, b.t[c].root, a.t[c].kstack, move)
  {
    hide Sbrked, Execed, Denied;
    match move
    case Grow =>
      var grown :| Sbrked(a, b, c, grown);
      SbrkIsStep(lay, img, a, b, c, grown);
    case Exec(at) =>
      var res, lost :| Execed(lay, img, a, b, c, at, res, lost);
      ExecIsStep(lay, img, a, b, c, at, res, lost);
    case ForkDenied(_) =>
      var r: int :| Denied(lay, a, b, c, r);
      DeniedIsStep(lay, img, a, b, c, r);
    case Other =>
  }

  lemma WaitIsReap(a: Shot, b: Shot, waiter: nat, z: nat)
    requires Waited(a, b, waiter, z)
    ensures a.t[z].kstack >= 0 && a.t[z].root >= 0 && b.owner == Reaped(a.owner, a.t[z].kstack, a.t[z].root)
  {
  }

  /** The owner maps of a life. */
  function Ledgers(s: seq<Shot>): (owners: seq<Owners>)
    ensures |owners| == |s| && forall i {:trigger owners[i]} | 0 <= i < |s| :: owners[i] == s[i].owner
  {
    seq(|s|, i requires 0 <= i < |s| => s[i].owner)
  }

  /**
    A life by the contracts of the system calls. `s` are its moments, from the one after the fork at
    `start` to the one before the wait that leads to `end`. The free frames at its end are those there
    were before it, with what others took or gave, less what its calls lost. And when others took and
    gave none, every role is as it was exactly when its calls lost none.
   */
  lemma FromForkToWait(lay: Layout, img: seq<byte>, start: Shot, s: seq<Shot>, moves: seq<Move>, end: Shot, parent: nat,
                       waiter: nat, c: nat)
    requires Forest(start.mem, start.owner) && |s| == |moves| + 1 && c != parent
    requires Forked(lay, start, s[0], parent, c) && Waited(s[|moves|], end, waiter, c)
    requires forall i {:trigger s[i]} | 0 <= i < |s| :: InLife(s[i], c)
    requires forall i {:trigger moves[i]} | 0 <= i < |moves| :: Called(lay, img, s[i], s[i + 1], c, moves[i])
    ensures |FreeFrames(end.owner)| == |FreeFrames(start.owner)| + Changes(lay, img, Ledgers(s), moves)
    ensures Undisturbed(Ledgers(s), moves) ==>
      (end.owner == start.owner <==>
         forall i {:trigger moves[i]} | 0 <= i < |moves| :: moves[i].Loss(lay, img, s[i].owner) == 0)
  {
    hide Forest, Called, LifeStep, FreeFrames, Losses, Changes, ForkedFrom, NewProcess, Reaped, Waited, Lives,
         Move.Loss, Undisturbed, Held;
    WaitIsReap(s[|moves|], end, waiter, c);
    var k: nat := s[0].t[c].kstack;
    SameStack(lay, img, s, moves, c);
    var owners := Ledgers(s);
    var roots := seq(|s|, i requires 0 <= i < |s| => s[i].t[c].root as nat);
    forall i {:trigger moves[i]} | 0 <= i < |moves|
      ensures LifeStep(lay, img, owners[i], owners[i + 1], roots[i], roots[i + 1], k, moves[i])
    {
      assert InLife(s[i], c) && InLife(s[i + 1], c);
      CallIsStep(lay, img, s[i], s[i + 1], c, moves[i]);
    }
    forall i {:trigger owners[i]} | 0 <= i < |owners| ensures Lives(owners[i], roots[i], k, c) {
      assert InLife(s[i], c);
    }
    LifeBalances(lay, img, owners, roots, moves, k, c);
    ForkTakes(start.mem, start.owner, s[0].mem, s[0].owner, roots[0], k, c);
    ReapGives(owners[|moves|], roots[|moves|], k, c);
    if Undisturbed(owners, moves) {
      ChildLeavesNoTrace(lay, img, start.mem, start.owner, s[0].mem, owners, roots, moves, k, c);
    }
  }

  /** The frames a fork gives the child are frames that were free. */
  lemma ForkTakes(mem0: Mem, owner0: Owners, mem: Mem, owner: Owners, r: nat, k: nat, c: nat)
    requires Forest(mem0, owner0) && NewProcess(mem0, owner0, mem, owner, r, k, c)
    ensures |FreeFrames(owner)| + |Held(owner, r, k)| == |FreeFrames(owner0)|
  {
    HeldIsUsed(owner, r, k);
    forall f: nat ensures f in FreeFrames(owner0) <==> f in FreeFrames(owner) + Held(owner, r, k) {
      hide V, Leaf, Target, EntriesOk;
      if f < |owner0| {
        assert owner0[f] != Free ==> owner[f] == owner0[f];
        if owner0[f].Node? { FreshRoot(mem0, owner0, f, r); }
      }
    }
    assert FreeFrames(owner0) == FreeFrames(owner) + Held(owner, r, k);
    UnionSize(FreeFrames(owner), Held(owner, r, k));
  }

  /** Reaping gives back exactly the frames held. */
  lemma ReapGives(owner: Owners, r: nat, k: nat, c: nat)
    requires Lives(owner, r, k, c)
    ensures |FreeFrames(Reaped(owner, k, r))| == |FreeFrames(owner)| + |Held(owner, r, k)|
  {
    var end := Reaped(owner, k, r);
    HeldIsUsed(owner, r, k);
    forall f: nat ensures f in FreeFrames(end) <==> f in FreeFrames(owner) + Held(owner, r, k) {
      if f < |owner| { assert owner[k := Free][f] == if f == k then Free else owner[f]; }
    }
    assert FreeFrames(end) == FreeFrames(owner) + Held(owner, r, k);
    UnionSize(FreeFrames(owner), Held(owner, r, k));
  }

  /** The kernel stack is the same all along. */
  lemma {:induction false} SameStack(lay: Layout, img: seq<byte>, s: seq<Shot>, moves: seq<Move>, c: nat)
    requires |s| == |moves| + 1
    requires forall i {:trigger s[i]} | 0 <= i < |s| :: InLife(s[i], c)
    requires forall i {:trigger moves[i]} | 0 <= i < |moves| :: Called(lay, img, s[i], s[i + 1], c, moves[i])
    ensures c < |s[0].t|
    ensures forall i {:trigger s[i]} | 0 <= i < |s| :: c < |s[i].t| && s[i].t[c].kstack == s[0].t[c].kstack
    decreases |moves|
  {
    hide Called, LifeStep, Lives;
    assert InLife(s[0], c);
    if moves != [] {
      var n := |moves| - 1;
      assert moves[n] in moves && InLife(s[n], c);
      CallIsStep(lay, img, s[n], s[n + 1], c, moves[n]);
      var s', moves' := s[..n + 1], moves[..n];
      forall i {:trigger moves'[i]} | 0 <= i < |moves'| ensures Called(lay, img, s'[i], s'[i + 1], c, moves'[i]) {
        assert moves'[i] == moves[i];
      }
      SameStack(lay, img, s', moves', c);
      forall i {:trigger s[i]} | 0 <= i < |s| ensures c < |s[i].t| && s[i].t[c].kstack == s[0].t[c].kstack {
        assert InLife(s[i], c);
        if i <= n { assert s'[i] == s[i]; }
      }
    }
  }
}
