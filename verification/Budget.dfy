/**
  What an operation costs in frames. It is the pages it maps and the tables it finds missing, and
  whether it succeeds depends on nothing but whether that many frames are free when it starts.
 */
module Budget {
  import opened Sv39
  import opened PageTrees

  ghost function FreeFrames(owner: Owners): set<nat> { set f: nat | f < |owner| && owner[f] == Free }

  /** The frames of tree `r`, tables and pages. */
  ghost function TreeFrames(owner: Owners, r: int): set<nat> {
    set f: nat | f < |owner| && owner[f].Node? && owner[f].root == r
  }

  /** Every frame is in use. */
  ghost predicate NoFree(owner: Owners) { forall f | 0 <= f < |owner| :: owner[f] != Free }

  /** The places of the tables of tree `r` below its root. */
  ghost function Tables(owner: Owners, r: nat): set<Path> {
    set f: nat | f < |owner| && IsTable(owner[f]) && owner[f].root == r && owner[f].path.Step? :: owner[f].path
  }

  /** The tables on the way to a page. */
  function Prefixes(p: Path): set<Path>
    requires PagePath(p)
  {
    {p.up.up, p.up}
  }

  /** The tables on the way to the pages lo..hi. */
  function RangeTables(lo: nat, hi: nat): set<Path>
    requires hi <= PAGES
  {
    if lo < hi then RangeTables(lo, hi - 1) + Prefixes(PathOf(hi - 1)) else {}
  }

  /**
    Exactly `n` free frames became something else than tables, and exactly the tables of `tables` that were
    missing were added.
   */
  ghost predicate Spent(owner: Owners, owner': Owners, r: nat, tables: set<Path>, n: nat) {
    && Tables(owner', r) == Tables(owner, r) + tables
    && |FreeFrames(owner)| == |FreeFrames(owner')| + n + |tables - Tables(owner, r)|
  }

  /** Fewer frames are free than `n` and the missing ones of `tables`. */
  ghost predicate Short(owner: Owners, r: nat, tables: set<Path>, n: nat) {
    |FreeFrames(owner)| < n + |tables - Tables(owner, r)|
  }

  // ---- sets ----

  lemma UnionSize<T>(a: set<T>, b: set<T>)
    requires a !! b
    ensures |a + b| == |a| + |b|
  {
  }

  lemma {:induction false} SubsetSize<T>(a: set<T>, b: set<T>)
    requires a <= b
    ensures |a| <= |b|
  {
    assert b == a + (b - a);
    UnionSize(a, b - a);
  }

  /** What is missing of two lots is what is missing of the first and then of the second. */
  lemma MissingOfBoth(have: set<Path>, a: set<Path>, b: set<Path>)
    ensures |(a + b) - have| == |a - have| + |b - (have + a)|
  {
    assert (a + b) - have == (a - have) + (b - (have + a));
    UnionSize(a - have, b - (have + a));
  }

  // ---- composing ----

  lemma SpentNothing(owner: Owners, r: nat)
    ensures Spent(owner, owner, r, {}, 0)
  {
    assert {} - Tables(owner, r) == {};
  }

  lemma SpentThen(owner: Owners, owner1: Owners, owner2: Owners, r: nat, a: set<Path>, m: nat, b: set<Path>, n: nat)
    requires Spent(owner, owner1, r, a, m) && Spent(owner1, owner2, r, b, n)
    ensures Spent(owner, owner2, r, a + b, m + n)
  {
    hide Tables, FreeFrames;
    MissingOfBoth(Tables(owner, r), a, b);
  }

  lemma SpentThenShort(owner: Owners, owner1: Owners, r: nat, a: set<Path>, m: nat, b: set<Path>, n: nat)
    requires Spent(owner, owner1, r, a, m)
    ensures Short(owner1, r, b, n) <==> Short(owner, r, a + b, m + n)
  {
    hide Tables, FreeFrames;
    MissingOfBoth(Tables(owner, r), a, b);
  }

  lemma ShortOfMore(owner: Owners, r: nat, a: set<Path>, m: nat, b: set<Path>, n: nat)
    requires Short(owner, r, a, m) && a <= b && m <= n
    ensures Short(owner, r, b, n)
  {
    hide Tables, FreeFrames;
    SubsetSize(a - Tables(owner, r), b - Tables(owner, r));
  }

  /** What was spent had been there to spend. */
  lemma SpentIsNotShort(owner: Owners, owner': Owners, r: nat, a: set<Path>, n: nat)
    requires Spent(owner, owner', r, a, n)
    ensures !Short(owner, r, a, n)
  {
    hide Tables, FreeFrames;
  }

  lemma ShortWhenFull(owner: Owners, r: nat, a: set<Path>, n: nat)
    requires NoFree(owner) && n > 0
    ensures Short(owner, r, a, n)
  {
    hide Tables, FreeFrames, NoFree;
    NoFreeIsZero(owner);
  }

  /** One more part of a whole: paid for, or the whole could not be. */
  lemma NextPart(owner: Owners, owner1: Owners, owner2: Owners, r: nat, a: set<Path>, m: nat, b: set<Path>, n: nat,
                 whole: set<Path>, total: nat)
    requires Spent(owner, owner1, r, a, m) && a + b <= whole && m + n <= total
    ensures Spent(owner1, owner2, r, b, n) ==> Spent(owner, owner2, r, a + b, m + n)
    ensures Short(owner1, r, b, n) ==> Short(owner, r, whole, total)
  {
    hide Spent, Short;
    if Spent(owner1, owner2, r, b, n) { SpentThen(owner, owner1, owner2, r, a, m, b, n); }
    if Short(owner1, r, b, n) {
      SpentThenShort(owner, owner1, r, a, m, b, n);
      ShortOfMore(owner, r, a + b, m + n, whole, total);
    }
  }

  lemma {:induction false} RangeIsMonotone(lo: nat, mid: nat, hi: nat)
    requires mid <= hi <= PAGES
    ensures RangeTables(lo, mid) <= RangeTables(lo, hi)
    decreases hi
  {
    if mid < hi { RangeIsMonotone(lo, mid, hi - 1); }
  }

  /** `n` pages, if `each` page has a frame of its own. */
  function PageFrames(each: bool, n: nat): nat { if each then n else 0 }

  /** One more page of a range. */
  lemma NextPage(owner: Owners, owner1: Owners, owner2: Owners, r: nat, lo: nat, page: nat, hi: nat, each: bool)
    requires lo <= page < hi <= PAGES && Spent(owner, owner1, r, RangeTables(lo, page), PageFrames(each, page - lo))
    ensures Spent(owner1, owner2, r, Prefixes(PathOf(page)), PageFrames(each, 1)) ==>
      Spent(owner, owner2, r, RangeTables(lo, page + 1), PageFrames(each, page + 1 - lo))
    ensures Short(owner1, r, Prefixes(PathOf(page)), PageFrames(each, 1)) ==>
      Short(owner, r, RangeTables(lo, hi), PageFrames(each, hi - lo))
  {
    hide Spent, Short, Prefixes, PathOf;
    RangeIsMonotone(lo, page + 1, hi);
    NextPart(owner, owner1, owner2, r, RangeTables(lo, page), PageFrames(each, page - lo), Prefixes(PathOf(page)),
             PageFrames(each, 1), RangeTables(lo, hi), PageFrames(each, hi - lo));
  }

  /** After `m` frames and the tables of `a` were spent, nothing is left exactly when there was not one frame more. */
  lemma SpentAll(owner: Owners, owner1: Owners, r: nat, a: set<Path>, m: nat)
    requires Spent(owner, owner1, r, a, m)
    ensures NoFree(owner1) <==> Short(owner, r, a, m + 1)
  {
    hide Tables, FreeFrames, NoFree;
    NoFreeIsZero(owner1);
  }

  // ---- single steps ----

  lemma NoFreeIsZero(owner: Owners)
    ensures NoFree(owner) <==> |FreeFrames(owner)| == 0
  {
    if |FreeFrames(owner)| == 0 {
      forall f | 0 <= f < |owner| ensures owner[f] != Free { assert f !in FreeFrames(owner); }
    } else {
      var f :| f in FreeFrames(owner);
      assert owner[f] == Free;
    }
  }

  /** Nothing is free below `n` and everything from there on. */
  lemma {:induction false} FreeAbove(owner: Owners, n: nat)
    requires n <= |owner| && forall f {:trigger owner[f]} | 0 <= f < |owner| :: owner[f] == Free <==> f >= n
    ensures |FreeFrames(owner)| == |owner| - n
    decreases |owner|
  {
    if |owner| == n {
      assert FreeFrames(owner) == {};
    } else {
      var hi := |owner| - 1;
      FreeAbove(owner[..hi], n);
      assert FreeFrames(owner) == FreeFrames(owner[..hi]) + {hi};
    }
  }

  lemma SomeFree(owner: Owners, f: nat)
    requires f < |owner| && owner[f] == Free
    ensures !NoFree(owner)
  {
  }

  lemma TakeFrame(owner: Owners, f: nat, role: Owner)
    requires f < |owner| && owner[f] == Free && role != Free
    ensures |FreeFrames(owner)| == |FreeFrames(owner[f := role])| + 1
  {
    assert FreeFrames(owner) == FreeFrames(owner[f := role]) + {f};
  }

  /** Roles that are neither free nor a table of tree `r` can be exchanged without notice. */
  lemma OtherRole(owner: Owners, f: nat, role: Owner, r: nat)
    requires f < |owner| && !(IsTable(owner[f]) && owner[f].root == r && owner[f].path.Step?)
    requires !(IsTable(role) && role.root == r && role.path.Step?)
    ensures Tables(owner[f := role], r) == Tables(owner, r)
    ensures owner[f] != Free && role != Free ==> FreeFrames(owner[f := role]) == FreeFrames(owner)
  {
    var owner' := owner[f := role];
    forall p ensures p in Tables(owner', r) <==> p in Tables(owner, r) {
      if p in Tables(owner', r) {
        var h: nat :| h < |owner'| && owner'[h] == Node(r, p);
        assert h != f && owner[h] == Node(r, p);
      }
      if p in Tables(owner, r) {
        var h: nat :| h < |owner| && owner[h] == Node(r, p);
        assert h != f && owner'[h] == Node(r, p);
      }
    }
  }

  lemma NewTable(owner: Owners, f: nat, r: nat, p: Path)
    requires f < |owner| && owner[f] == Free && p.Step? && p.Depth() < 3 && p !in Tables(owner, r)
    ensures Spent(owner, owner[f := Node(r, p)], r, {p}, 0)
  {
    var owner' := owner[f := Node(r, p)];
    TakeFrame(owner, f, Node(r, p));
    forall q ensures q in Tables(owner', r) <==> q in Tables(owner, r) || q == p {
      if q in Tables(owner', r) {
        var h: nat :| h < |owner'| && owner'[h] == Node(r, q);
        assert h != f ==> owner[h] == Node(r, q);
      }
      if q in Tables(owner, r) {
        var h: nat :| h < |owner| && owner[h] == Node(r, q);
        assert h != f && owner'[h] == Node(r, q);
      }
      if q == p { assert owner'[f] == Node(r, q); }
    }
    assert {p} - Tables(owner, r) == {p};
  }

  /** A frame taken for something else than a table. */
  lemma NewOther(owner: Owners, f: nat, role: Owner, r: nat)
    requires f < |owner| && owner[f] == Free && role != Free && !(IsTable(role) && role.root == r && role.path.Step?)
    ensures Spent(owner, owner[f := role], r, {}, 1)
  {
    TakeFrame(owner, f, role);
    OtherRole(owner, f, role, r);
    assert {} - Tables(owner, r) == {};
  }

  /** A table that is there costs nothing. */
  lemma OldTable(owner: Owners, r: nat, p: Path)
    requires p in Tables(owner, r)
    ensures Spent(owner, owner, r, {p}, 0)
  {
    assert {p} - Tables(owner, r) == {} && Tables(owner, r) + {p} == Tables(owner, r);
  }

  /** A valid entry above the last level is a table there, an invalid one is none. */
  lemma EntryIsTable(mem: Mem, owner: Owners, f: nat, i: nat)
    requires Forest(mem, owner) && f < TOTAL_PAGES && owner[f].Node? && owner[f].path.Depth() < 2 && i < ENTRIES
    requires TableShape(mem[f])
    ensures V(mem[f].e[i]) <==> Step(owner[f].path, i) in Tables(owner, owner[f].root)
  {
    hide V, Leaf, R, W, X, U, Target, EntriesOk;
    var r, p := owner[f].root, Step(owner[f].path, i);
    EntryOfTable(mem, owner, f, i);
    if V(mem[f].e[i]) {
      assert owner[Target(mem[f].e[i])] == Node(r, p);
    } else {
      forall h: nat | h < TOTAL_PAGES ensures owner[h] != Node(r, p) {
        if owner[h].Node? && owner[h].root == r { NothingBelow(mem, owner, f, i, h); }
      }
    }
  }

  /** A fresh root has no tables yet. */
  lemma FreshTree(mem: Mem, owner: Owners, r: nat)
    requires Forest(mem, owner) && r < TOTAL_PAGES && owner[r] == Free
    ensures Tables(owner, r) == Tables(owner[r := Node(r, Top)], r) == {}
    ensures |FreeFrames(owner)| == |FreeFrames(owner[r := Node(r, Top)])| + 1
  {
    hide V, Leaf, R, W, X, U, Target, EntriesOk;
    TakeFrame(owner, r, Node(r, Top));
    forall h: nat | h < TOTAL_PAGES && owner[h].Node? ensures owner[h].root != r { assert NodeOk(mem, owner, h); }
  }

  /** A page that reads as anything has its tables. */
  lemma MappedHasTables(mem: Mem, owner: Owners, r: nat, p: Path)
    requires Forest(mem, owner) && IsRoot(owner, r) && PagePath(p) && Entry(mem, r, p) != 0
    ensures Prefixes(p) <= Tables(owner, r)
  {
    hide V, Leaf, R, W, X, U, Target;
    TableRole(mem, owner, r, p.up);
    TableRole(mem, owner, r, p.up.up);
    ZeroIsInvalid();
    assert TableAt(mem, r, p.up) != -1;
    assert TableAt(mem, r, p.up.up) != -1;
    assert owner[TableAt(mem, r, p.up)] == Node(r, p.up) && owner[TableAt(mem, r, p.up.up)] == Node(r, p.up.up);
  }

  // ---- what is in a range ----

  lemma {:induction false} InRange(lo: nat, hi: nat, p: Path)
    requires hi <= PAGES
    ensures p in RangeTables(lo, hi) <==>
      exists page {:trigger PathOf(page)} :: lo <= page < hi && p in Prefixes(PathOf(page))
    decreases hi
  {
    hide PathOf, Prefixes;
    if lo < hi {
      InRange(lo, hi - 1, p);
      if p in Prefixes(PathOf(hi - 1)) { assert lo <= hi - 1 < hi; }
    }
  }
}
