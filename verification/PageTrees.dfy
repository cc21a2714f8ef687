/**
  Physical memory as page-table trees: what a walk reads, who owns each frame, and what one
  write of a page-table entry does to every walk.

  A frame is viewed as 512 entries or as 4096 bytes, by what it was last initialised as. The
  ghost owner map gives each frame one role. A role `Node(root, path)` is a place in the tree
  of `root`: a table when the path has fewer than three steps, a user page when it has three.
 */
module PageTrees {
  import opened Sv39

  datatype Frame = Entries(e: seq<Word>) | Bytes(b: seq<byte>)

  type Mem = seq<Frame>

  datatype Owner =
    | Free
    | Reserved                          // firmware, kernel image, allocator bitmap
    | InFlight                          // allocated, not yet put to use
    | Stack(slot: nat)                  // kernel stack of a process slot
    | Node(root: nat, path: Path)
    | Lost                              // dropped by the kernel on an out-of-memory path

  type Owners = seq<Owner>

  /** A frame cleared by memset, to be used as a table. */
  function ZeroTable(): (v: Frame)
    ensures TableShape(v) && forall i | 0 <= i < ENTRIES :: v.e[i] == 0
  {
    Entries(seq(ENTRIES, _ => 0))
  }

  /** A frame cleared by memset, to be used as memory. */
  function ZeroPage(): (v: Frame)
    ensures PageShape(v) && forall i | 0 <= i < PAGE_SIZE :: v.b[i] == 0
  {
    Bytes(seq(PAGE_SIZE, _ => 0))
  }

  // ---- walks ----

  function ReadPte(mem: Mem, t: int, i: nat): Word {
    if 0 <= t < |mem| && mem[t].Entries? && i < |mem[t].e| then mem[t].e[i] else 0
  }

  /** The table a walk along `path` arrives at, or -1 when an entry on the way points nowhere. */
  function TableAt(mem: Mem, root: nat, path: Path): int
    decreases path, 1
  {
    if path.Top? then root
    else
      var w := Entry(mem, root, path);
      if Points(w) then Target(w) else -1
  }

  /** The entry a walk along `path` reads last: 0 when it is stopped before. */
  function Entry(mem: Mem, root: nat, path: Path): Word
    requires path.Step?
    decreases path, 0
  {
    ReadPte(mem, TableAt(mem, root, path.up), path.i)
  }

  // ---- the ownership invariant ----

  predicate IsRoot(owner: Owners, r: nat) {
    r < |owner| && owner[r] == Node(r, Top)
  }

  predicate IsTable(o: Owner) { o.Node? && o.path.Depth() < 3 }

  predicate UserLeaf(w: Word) { V(w) && Leaf(w) && U(w) }

  /** An entry of a last-level table maps the page at `path`: user memory, or the page itself. */
  predicate LeafOk(owner: Owners, r: nat, path: Path, w: Word)
    requires |owner| == TOTAL_PAGES && PagePath(path)
  {
    && Leaf(w) && !(W(w) && X(w)) && (W(w) ==> R(w))
    && if U(w) then InRam(Target(w)) && owner[Target(w)] == Node(r, path) else w / 1024 == PageOf(path)
  }

  /** The entry reached by `path` in tree `r`, reading `w`, agrees with the owner map. */
  predicate EntryOk(owner: Owners, r: nat, path: Path, w: Word)
    requires |owner| == TOTAL_PAGES && path.Valid() && 0 < path.Depth() <= 3
  {
    if !V(w) then w == 0
    else if path.Depth() < 3 then Points(w) && owner[Target(w)] == Node(r, path)
    else LeafOk(owner, r, path, w)
  }

  predicate TableShape(v: Frame) { v.Entries? && |v.e| == ENTRIES }

  predicate PageShape(v: Frame) { v.Bytes? && |v.b| == PAGE_SIZE }

  predicate EntriesOk(owner: Owners, r: nat, p: Path, v: Frame)
    requires |owner| == TOTAL_PAGES && p.Valid() && p.Depth() < 3 && TableShape(v)
  {
    forall i {:trigger EntryOk(owner, r, Step(p, i), v.e[i])} | 0 <= i < ENTRIES ::
      EntryOk(owner, r, Step(p, i), v.e[i])
  }

  /** The frame `f` is where its role says: its walk ends here, and its entries are in order. */
  predicate NodeOk(mem: Mem, owner: Owners, f: nat)
    requires |mem| == |owner| == TOTAL_PAGES && f < TOTAL_PAGES && owner[f].Node?
  {
    var (r, p) := (owner[f].root, owner[f].path);
    && IsRoot(owner, r) && p.Depth() <= 3 && p.Valid()
    && if p.Depth() < 3 then
         TableAt(mem, r, p) == f && TableShape(mem[f]) && EntriesOk(owner, r, p, mem[f])
       else
         PageShape(mem[f]) && UserLeaf(Entry(mem, r, p)) && Target(Entry(mem, r, p)) == f
  }

  ghost predicate Forest(mem: Mem, owner: Owners) {
    && |mem| == |owner| == TOTAL_PAGES
    && forall f {:trigger NodeOk(mem, owner, f)} | 0 <= f < TOTAL_PAGES && owner[f].Node? :: NodeOk(mem, owner, f)
  }

  // ---- reading a forest ----

  lemma ZeroIsInvalid()
    ensures !V(0) && !U(0) && !Leaf(0) && !Points(0)
  {
  }

  /** A walk inside a tree arrives at the frame whose role is that path, and at no other. */
  lemma {:induction false} TableRole(mem: Mem, owner: Owners, r: nat, path: Path)
    requires Forest(mem, owner) && IsRoot(owner, r) && path.Depth() < 3 && path.Valid()
    ensures var t := TableAt(mem, r, path); t != -1 ==> InRam(t) && owner[t] == Node(r, path)
    decreases path
  {
    hide V, Leaf, Target, PageOf;
    if path.Step? {
      TableRole(mem, owner, r, path.up);
      var t := TableAt(mem, r, path.up);
      ZeroIsInvalid();
      if t != -1 {
        assert NodeOk(mem, owner, t);
        assert EntryOk(owner, r, path, mem[t].e[path.i]);
      }
    }
  }

  /** The entry a walk reads is in order for the owner map. */
  lemma EntryRole(mem: Mem, owner: Owners, r: nat, path: Path)
    requires Forest(mem, owner) && IsRoot(owner, r) && 0 < path.Depth() <= 3 && path.Valid()
    ensures EntryOk(owner, r, path, Entry(mem, r, path))
  {
    hide V, Leaf, Target, PageOf, LeafOk;
    TableRole(mem, owner, r, path.up);
    var t := TableAt(mem, r, path.up);
    ZeroIsInvalid();
    if t != -1 {
      assert NodeOk(mem, owner, t);
      assert EntryOk(owner, r, path, mem[t].e[path.i]);
    }
  }

  /** A table's entry `i` is the one the walk to it and one step further reads. */
  lemma EntryOfTable(mem: Mem, owner: Owners, f: nat, i: nat)
    requires Forest(mem, owner) && f < TOTAL_PAGES && IsTable(owner[f]) && i < ENTRIES
    ensures IsRoot(owner, owner[f].root) && Step(owner[f].path, i).Valid() && TableShape(mem[f])
    ensures Entry(mem, owner[f].root, Step(owner[f].path, i)) == mem[f].e[i]
    ensures EntryOk(owner, owner[f].root, Step(owner[f].path, i), mem[f].e[i])
  {
    assert NodeOk(mem, owner, f);
  }

  /** A walk that reads anything went through pointers all the way. */
  lemma {:induction false} PrefixPoints(mem: Mem, r: nat, q: Path, p: Path)
    requires p.Step? && q.Under(p) && q != p && Entry(mem, r, q) != 0
    ensures Points(Entry(mem, r, p))
    decreases q
  {
    hide V, Leaf, Target;
    ZeroIsInvalid();
    if q.up != p { PrefixPoints(mem, r, q.up, p); }
  }

  /** Below an entry that maps nothing of its own the tree has no frame. */
  lemma NothingBelow(mem: Mem, owner: Owners, f: nat, i: nat, h: nat)
    requires Forest(mem, owner) && f < TOTAL_PAGES && IsTable(owner[f]) && i < ENTRIES
    requires !V(ReadPte(mem, f, i)) || (owner[f].path.Depth() == 2 && !UserLeaf(ReadPte(mem, f, i)))
    requires h < TOTAL_PAGES && owner[h].Node? && owner[h].root == owner[f].root
    ensures !owner[h].path.Under(Step(owner[f].path, i))
  {
    hide V, Leaf, Target, PageOf, EntriesOk, EntryOk;
    var r, p, q := owner[f].root, Step(owner[f].path, i), owner[h].path;
    assert NodeOk(mem, owner, h);
    EntryOfTable(mem, owner, f, i);
    ZeroIsInvalid();
    if q.Under(p) {
      UnderDepth(p, q);
      if q != p { PrefixPoints(mem, r, q, p); }
    }
  }

  lemma {:induction false} UnderDepth(p: Path, q: Path)
    requires q.Under(p)
    ensures q != p ==> q.Depth() > p.Depth()
    decreases q
  {
    if q != p { UnderDepth(p, q.up); }
  }

  // ---- writing one entry ----

  /** The memory with entry `i` of table `f` replaced by `w`. */
  function WriteEntry(mem: Mem, f: nat, i: nat, w: Word): Mem
    requires f < |mem| && mem[f].Entries? && i < |mem[f].e|
  {
    mem[f := Entries(mem[f].e[i := w])]
  }

  /** No table of tree `r` was written. */
  ghost predicate SameTables(mem: Mem, mem': Mem, owner: Owners, r: nat)
  {
    && |mem| == |mem'| == |owner|
    && forall h {:trigger mem'[h]} | 0 <= h < |owner| && IsTable(owner[h]) && owner[h].root == r :: mem'[h] == mem[h]
  }

  /** Walks only read tables of their own tree. */
  lemma {:induction false} EntryFrame(mem: Mem, mem': Mem, owner: Owners, r: nat, q: Path)
    requires Forest(mem, owner) && SameTables(mem, mem', owner, r)
    requires IsRoot(owner, r) && 0 < q.Depth() <= 3 && q.Valid()
    ensures Entry(mem', r, q) == Entry(mem, r, q)
    decreases q
  {
    hide V, Leaf, Target;
    if q.up.Step? { EntryFrame(mem, mem', owner, r, q.up); }
    TableRole(mem, owner, r, q.up);
  }

  /** A write to entry `i` of table `f` is seen by the walks that go through it and by no other. */
  lemma {:induction false} EntryAfterWrite(mem: Mem, owner: Owners, f: nat, i: nat, w: Word, r: nat, q: Path)
    requires Forest(mem, owner) && f < TOTAL_PAGES && IsTable(owner[f]) && i < ENTRIES && TableShape(mem[f])
    requires IsRoot(owner, r) && 0 < q.Depth() <= 3 && q.Valid()
    ensures !(r == owner[f].root && q.Under(Step(owner[f].path, i))) ==>
              Entry(WriteEntry(mem, f, i, w), r, q) == Entry(mem, r, q)
    ensures r == owner[f].root && q == Step(owner[f].path, i) ==> Entry(WriteEntry(mem, f, i, w), r, q) == w
    decreases q
  {
    hide V, Leaf, Target;
    var mem' := WriteEntry(mem, f, i, w);
    if q.up.Step? { EntryAfterWrite(mem, owner, f, i, w, r, q.up); }
    TableRole(mem, owner, r, q.up);
    assert NodeOk(mem, owner, f);
    if q == Step(owner[f].path, i) { UnderIsProper(q.up, i); }
  }

  lemma {:induction false} UnderIsProper(p: Path, i: nat)
    ensures !p.Under(Step(p, i))
  {
    assert Step(p, i).Depth() == 1 + p.Depth();
    if p.Under(Step(p, i)) { UnderDepth(Step(p, i), p); }
  }

  // ---- the steps every operation is made of ----

  /** Every page translation of every tree, except the one at (r, q), is the same before and after. */
  ghost predicate SameLeavesBut(mem: Mem, mem': Mem, owner: Owners, r: nat, q: Path)
  {
    forall r', q' {:trigger Entry(mem', r', q')} | IsRoot(owner, r') && PagePath(q') && !(r' == r && q' == q) ::
      Entry(mem', r', q') == Entry(mem, r', q')
  }

  ghost predicate SameLeaves(mem: Mem, mem': Mem, owner: Owners)
  {
    forall r', q' {:trigger Entry(mem', r', q')} | IsRoot(owner, r') && PagePath(q') ::
      Entry(mem', r', q') == Entry(mem, r', q')
  }

  /** No node loses its role. */
  ghost predicate Grows(owner: Owners, owner': Owners)
  {
    && |owner| == |owner'| == TOTAL_PAGES
    && forall f {:trigger owner'[f]} | 0 <= f < |owner| && owner[f].Node? :: owner'[f] == owner[f]
  }

  lemma EntriesStayOk(owner: Owners, owner': Owners, r: nat, p: Path, v: Frame)
    requires Grows(owner, owner')
    requires p.Valid() && p.Depth() < 3 && TableShape(v) && EntriesOk(owner, r, p, v)
    ensures EntriesOk(owner', r, p, v)
  {
    hide V, Leaf, U, W, X, Target, PageOf;
    forall i | 0 <= i < ENTRIES
      ensures EntryOk(owner', r, Step(p, i), v.e[i])
    {
      assert EntryOk(owner, r, Step(p, i), v.e[i]);
    }
  }

  lemma NodeStays(mem: Mem, owner: Owners, mem': Mem, owner': Owners, h: nat)
    requires |mem| == |mem'| == TOTAL_PAGES && Grows(owner, owner')
    requires h < TOTAL_PAGES && owner[h].Node? && NodeOk(mem, owner, h)
    requires mem'[h] == mem[h]
    requires owner[h].path.Step? ==>
      Entry(mem', owner[h].root, owner[h].path) == Entry(mem, owner[h].root, owner[h].path)
    ensures NodeOk(mem', owner', h)
  {
    hide V, Leaf, U, Target, EntriesOk;
    if owner[h].path.Depth() < 3 { EntriesStayOk(owner, owner', owner[h].root, owner[h].path, mem[h]); }
  }

  /** A write to a frame that is in no tree is seen by no walk. */
  lemma NonTableWrite(mem: Mem, owner: Owners, g: nat, v: Frame)
    requires Forest(mem, owner) && g < TOTAL_PAGES && !owner[g].Node?
    ensures Forest(mem[g := v], owner) && SameLeaves(mem, mem[g := v], owner)
  {
    hide V, Leaf, U, Target, EntriesOk;
    var mem' := mem[g := v];
    forall r, q: Path {:trigger Entry(mem', r, q)} | IsRoot(owner, r) && 0 < q.Depth() <= 3 && q.Valid()
      ensures Entry(mem', r, q) == Entry(mem, r, q)
    {
      EntryFrame(mem, mem', owner, r, q);
    }
    forall h: nat | h < TOTAL_PAGES && owner[h].Node?
      ensures NodeOk(mem', owner, h)
    {
      assert NodeOk(mem, owner, h);
      NodeStays(mem, owner, mem', owner, h);
    }
  }

  function TablePte(g: nat): Word
    requires g < TOTAL_PAGES
  {
    PaToPte(FrameAddr(g)) + PTE_V
  }

  lemma TablePtePoints(g: nat)
    requires g < TOTAL_PAGES
    ensures V(TablePte(g)) && Points(TablePte(g)) && Target(TablePte(g)) == g
  {
    LowBits(FrameAddr(g) / 4096, PTE_V);
  }

  ghost predicate CanLink(mem: Mem, owner: Owners, f: nat, i: nat, g: nat) {
    && Forest(mem, owner) && f < TOTAL_PAGES && g < TOTAL_PAGES && i < ENTRIES
    && owner[f].Node? && owner[f].path.Depth() < 2 && !owner[g].Node?
    && TableShape(mem[f]) && !V(mem[f].e[i])
  }

  /** The memory with the zeroed frame `g` linked under entry `i` of table `f`. */
  function Linked(mem: Mem, f: nat, i: nat, g: nat): Mem
    requires |mem| == TOTAL_PAGES && f < TOTAL_PAGES && g < TOTAL_PAGES && f != g
    requires TableShape(mem[f]) && i < ENTRIES
  {
    WriteEntry(mem[g := ZeroTable()], f, i, TablePte(g))
  }

  /** What walks read after a zeroed frame is linked: the new pointer, and nothing else new. */
  lemma LinkTableWalks(mem: Mem, owner: Owners, f: nat, i: nat, g: nat, r: nat, q: Path)
    requires CanLink(mem, owner, f, i, g)
    requires IsRoot(owner, r) && 0 < q.Depth() <= 3 && q.Valid()
    ensures Entry(Linked(mem, f, i, g), r, q) ==
              if r == owner[f].root && q == Step(owner[f].path, i) then TablePte(g) else Entry(mem, r, q)
    decreases q
  {
    hide V, Leaf, U, Target, EntriesOk, PaToPte;
    var p, mem1, mem' := Step(owner[f].path, i), mem[g := ZeroTable()], Linked(mem, f, i, g);
    NonTableWrite(mem, owner, g, ZeroTable());
    EntryFrame(mem, mem1, owner, r, q);
    EntryAfterWrite(mem1, owner, f, i, TablePte(g), r, q);
    if r == owner[f].root && q.Under(p) && q != p {
      UnderDepth(p, q.up);
      LinkTableWalks(mem, owner, f, i, g, r, q.up);
      BlockedBelow(mem, owner, f, i, q);
      TablePtePoints(g);
      if q.up != p { BlockedBelow(mem, owner, f, i, q.up); }
      ZeroIsInvalid();
    }
  }

  /** Below an invalid entry a walk reads nothing. */
  lemma BlockedBelow(mem: Mem, owner: Owners, f: nat, i: nat, q: Path)
    requires Forest(mem, owner) && f < TOTAL_PAGES && IsTable(owner[f]) && i < ENTRIES
    requires TableShape(mem[f]) && !V(mem[f].e[i])
    requires q.Under(Step(owner[f].path, i)) && q != Step(owner[f].path, i)
    ensures Entry(mem, owner[f].root, q) == 0
  {
    hide V, Leaf, U, Target, EntriesOk;
    EntryOfTable(mem, owner, f, i);
    if Entry(mem, owner[f].root, q) != 0 { PrefixPoints(mem, owner[f].root, q, Step(owner[f].path, i)); }
  }

  /** Linking a zeroed frame under an invalid entry grows one tree and moves no translation. */
  lemma LinkTable(mem: Mem, owner: Owners, f: nat, i: nat, g: nat)
    requires CanLink(mem, owner, f, i, g)
    ensures Forest(Linked(mem, f, i, g), owner[g := Node(owner[f].root, Step(owner[f].path, i))])
    ensures SameLeaves(mem, Linked(mem, f, i, g), owner)
  {
    hide V, Leaf, U, Target, PaToPte, EntriesOk;
    var r, p, mem' := owner[f].root, owner[f].path, Linked(mem, f, i, g);
    var owner' := owner[g := Node(r, Step(p, i))];
    assert NodeOk(mem, owner, f);
    assert NodeOk(mem', owner', g) by {
      LinkTableWalks(mem, owner, f, i, g, r, Step(p, i));
      TablePtePoints(g);
      ZeroEntriesOk(owner', r, Step(p, i));
    }
    assert NodeOk(mem', owner', f) by {
      if p.Step? { LinkTableWalks(mem, owner, f, i, g, r, p); UnderIsProper(p, i); }
      LinkedEntriesOk(mem, owner, f, i, g);
    }
    forall h: nat | h < TOTAL_PAGES && owner[h].Node? && h != f
      ensures NodeOk(mem', owner', h)
    {
      assert NodeOk(mem, owner, h);
      if owner[h].root == r { NothingBelow(mem, owner, f, i, h); }
      if owner[h].path.Step? { LinkTableWalks(mem, owner, f, i, g, owner[h].root, owner[h].path); }
      NodeStays(mem, owner, mem', owner', h);
    }
    forall r', q' {:trigger Entry(mem', r', q')} | IsRoot(owner, r') && PagePath(q')
      ensures Entry(mem', r', q') == Entry(mem, r', q')
    {
      LinkTableWalks(mem, owner, f, i, g, r', q');
    }
  }

  lemma ZeroEntriesOk(owner: Owners, r: nat, p: Path)
    requires |owner| == TOTAL_PAGES && p.Valid() && p.Depth() < 3
    ensures TableShape(ZeroTable()) && EntriesOk(owner, r, p, ZeroTable())
  {
    forall i | 0 <= i < ENTRIES ensures EntryOk(owner, r, Step(p, i), ZeroTable().e[i]) {}
  }

  lemma LinkedEntriesOk(mem: Mem, owner: Owners, f: nat, i: nat, g: nat)
    requires CanLink(mem, owner, f, i, g) && NodeOk(mem, owner, f)
    ensures EntriesOk(owner[g := Node(owner[f].root, Step(owner[f].path, i))], owner[f].root, owner[f].path,
                      Linked(mem, f, i, g)[f])
  {
    hide V, Leaf, U, Target, PaToPte, LeafOk;
    var r, p, v := owner[f].root, owner[f].path, Linked(mem, f, i, g)[f];
    var owner' := owner[g := Node(r, Step(p, i))];
    TablePtePoints(g);
    EntriesStayOk(owner, owner', r, p, mem[f]);
    forall j | 0 <= j < ENTRIES
      ensures EntryOk(owner', r, Step(p, j), v.e[j])
    {
      if j != i { assert EntryOk(owner', r, Step(p, j), mem[f].e[j]); }
    }
  }

  /** The role of a frame outside all trees does not matter to them. */
  lemma RoleOutside(mem: Mem, owner: Owners, g: nat, role: Owner)
    requires Forest(mem, owner) && g < TOTAL_PAGES && !owner[g].Node? && !role.Node?
    ensures Forest(mem, owner[g := role])
  {
    hide V, Leaf, R, W, X, U, Target, EntriesOk, EntryOk;
    var owner' := owner[g := role];
    forall h: nat | h < TOTAL_PAGES && owner'[h].Node?
      ensures NodeOk(mem, owner', h)
    {
      assert NodeOk(mem, owner, h);
      NodeStays(mem, owner, mem, owner', h);
    }
  }

  /** No two frames have the same role. */
  lemma RoleIsUnique(mem: Mem, owner: Owners, f: nat, h: nat)
    requires Forest(mem, owner) && f < TOTAL_PAGES && h < TOTAL_PAGES
    requires owner[f].Node? && owner[h] == owner[f]
    ensures h == f
  {
    hide V, Leaf, U, Target, EntriesOk;
    assert NodeOk(mem, owner, f) && NodeOk(mem, owner, h);
  }

  /** What may be written over an entry that maps no user page. */
  predicate NewLeafOk(mem: Mem, owner: Owners, path: Path, w: Word)
    requires |mem| == |owner| == TOTAL_PAGES
  {
    && V(w) && Leaf(w) && !(W(w) && X(w)) && (W(w) ==> R(w)) && PagePath(path)
    && if U(w) then InRam(Target(w)) && owner[Target(w)] == InFlight && PageShape(mem[Target(w)])
       else w / 1024 == PageOf(path)
  }

  ghost predicate CanMap(mem: Mem, owner: Owners, f: nat, i: nat, w: Word) {
    && Forest(mem, owner) && f < TOTAL_PAGES && i < ENTRIES
    && owner[f].Node? && owner[f].path.Depth() == 2
    && TableShape(mem[f]) && !UserLeaf(mem[f].e[i])
    && NewLeafOk(mem, owner, Step(owner[f].path, i), w)
  }

  /** The owner map after entry `i` of the last-level table `f` is set to `w`. */
  function OwnersAfterLeaf(owner: Owners, f: nat, i: nat, w: Word): (owner': Owners)
    requires f < |owner| == TOTAL_PAGES && owner[f].Node? && (U(w) ==> InRam(Target(w)))
    ensures |owner'| == TOTAL_PAGES
  {
    if U(w) then owner[Target(w) := Node(owner[f].root, Step(owner[f].path, i))] else owner
  }

  /** Mapping one page changes the translation of that page only, and keeps the forest. */
  lemma SetLeaf(mem: Mem, owner: Owners, f: nat, i: nat, w: Word)
    requires CanMap(mem, owner, f, i, w)
    ensures Forest(WriteEntry(mem, f, i, w), OwnersAfterLeaf(owner, f, i, w))
    ensures SameLeavesBut(mem, WriteEntry(mem, f, i, w), owner, owner[f].root, Step(owner[f].path, i))
    ensures Entry(WriteEntry(mem, f, i, w), owner[f].root, Step(owner[f].path, i)) == w
  {
    hide V, Leaf, R, W, X, U, Target, EntriesOk, PageOf;
    var r, p := owner[f].root, Step(owner[f].path, i);
    var mem', owner' := WriteEntry(mem, f, i, w), OwnersAfterLeaf(owner, f, i, w);
    assert NodeOk(mem, owner, f);
    EntryAfterWrite(mem, owner, f, i, w, r, p);
    assert NodeOk(mem', owner', f) by {
      EntryAfterWrite(mem, owner, f, i, w, r, p.up);
      UnderIsProper(p.up, i);
      MappedEntriesOk(mem, owner, f, i, w);
    }
    if U(w) { assert NodeOk(mem', owner', Target(w)); }
    forall h: nat | h < TOTAL_PAGES && owner[h].Node? && h != f
      ensures NodeOk(mem', owner', h)
    {
      assert NodeOk(mem, owner, h);
      if owner[h].root == r { NothingBelow(mem, owner, f, i, h); }
      if owner[h].path.Step? { EntryAfterWrite(mem, owner, f, i, w, owner[h].root, owner[h].path); }
      NodeStays(mem, owner, mem', owner', h);
    }
    forall r', q' {:trigger Entry(mem', r', q')} | IsRoot(owner, r') && PagePath(q') && !(r' == r && q' == p)
      ensures Entry(mem', r', q') == Entry(mem, r', q')
    {
      if q' != p { PagesApart(p, q'); }
      EntryAfterWrite(mem, owner, f, i, w, r', q');
    }
  }

  /** One page is not under another. */
  lemma PagesApart(p: Path, q: Path)
    requires p.Depth() == q.Depth() && p != q
    ensures !q.Under(p)
  {
    if q.Under(p) { UnderDepth(p, q); }
  }

  lemma MappedEntriesOk(mem: Mem, owner: Owners, f: nat, i: nat, w: Word)
    requires CanMap(mem, owner, f, i, w) && NodeOk(mem, owner, f)
    ensures EntriesOk(OwnersAfterLeaf(owner, f, i, w), owner[f].root, owner[f].path, WriteEntry(mem, f, i, w)[f])
  {
    hide V, Leaf, R, W, X, U, Target, PageOf;
    var r, p, v := owner[f].root, owner[f].path, WriteEntry(mem, f, i, w)[f];
    var owner' := OwnersAfterLeaf(owner, f, i, w);
    EntriesStayOk(owner, owner', r, p, mem[f]);
    forall j | 0 <= j < ENTRIES
      ensures EntryOk(owner', r, Step(p, j), v.e[j])
    {
      if j != i { assert EntryOk(owner', r, Step(p, j), mem[f].e[j]); }
    }
  }

  ghost predicate CanUnmap(mem: Mem, owner: Owners, f: nat, i: nat) {
    && Forest(mem, owner) && f < TOTAL_PAGES && i < ENTRIES
    && owner[f].Node? && owner[f].path.Depth() == 2
    && TableShape(mem[f]) && UserLeaf(mem[f].e[i])
  }

  /** Unmapping one user page frees its frame and changes no other translation. */
  lemma ClearLeaf(mem: Mem, owner: Owners, f: nat, i: nat)
    requires CanUnmap(mem, owner, f, i)
    ensures InRam(Target(mem[f].e[i])) && owner[Target(mem[f].e[i])] == Node(owner[f].root, Step(owner[f].path, i))
    ensures Forest(WriteEntry(mem, f, i, 0), owner[Target(mem[f].e[i]) := Free])
    ensures SameLeavesBut(mem, WriteEntry(mem, f, i, 0), owner, owner[f].root, Step(owner[f].path, i))
    ensures Entry(WriteEntry(mem, f, i, 0), owner[f].root, Step(owner[f].path, i)) == 0
  {
    hide V, Leaf, R, W, X, U, Target, EntriesOk, PageOf;
    var r, p := owner[f].root, Step(owner[f].path, i);
    EntryOfTable(mem, owner, f, i);
    var t := Target(mem[f].e[i]);
    var mem', owner' := WriteEntry(mem, f, i, 0), owner[t := Free];
    EntryAfterWrite(mem, owner, f, i, 0, r, p);
    forall h: nat | h < TOTAL_PAGES && owner'[h].Node?
      ensures NodeOk(mem', owner', h)
    {
      NodeAfterClear(mem, owner, f, i, h);
    }
    forall r', q' {:trigger Entry(mem', r', q')} | IsRoot(owner, r') && PagePath(q') && !(r' == r && q' == p)
      ensures Entry(mem', r', q') == Entry(mem, r', q')
    {
      if q' != p { PagesApart(p, q'); }
      EntryAfterWrite(mem, owner, f, i, 0, r', q');
    }
  }

  lemma NodeAfterClear(mem: Mem, owner: Owners, f: nat, i: nat, h: nat)
    requires CanUnmap(mem, owner, f, i) && h < TOTAL_PAGES && owner[h].Node?
    requires InRam(Target(mem[f].e[i])) && owner[Target(mem[f].e[i])] == Node(owner[f].root, Step(owner[f].path, i))
    requires h != Target(mem[f].e[i])
    ensures NodeOk(WriteEntry(mem, f, i, 0), owner[Target(mem[f].e[i]) := Free], h)
  {
    hide V, Leaf, R, W, X, U, Target, EntriesOk, PageOf;
    var t := Target(mem[f].e[i]);
    var r, p, mem' := owner[h].root, owner[h].path, WriteEntry(mem, f, i, 0);
    assert NodeOk(mem, owner, h) && NodeOk(mem, owner, f);
    if owner[h] == owner[t] { RoleIsUnique(mem, owner, t, h); }
    if p.Step? {
      if p.Under(Step(owner[f].path, i)) { UnderDepth(Step(owner[f].path, i), p); }
      EntryAfterWrite(mem, owner, f, i, 0, r, p);
    }
    if p.Depth() < 3 { ClearedEntriesOk(mem, owner, f, i, h); }
  }

  lemma ClearedEntriesOk(mem: Mem, owner: Owners, f: nat, i: nat, h: nat)
    requires CanUnmap(mem, owner, f, i) && h < TOTAL_PAGES && IsTable(owner[h]) && NodeOk(mem, owner, h)
    requires InRam(Target(mem[f].e[i])) && owner[Target(mem[f].e[i])] == Node(owner[f].root, Step(owner[f].path, i))
    ensures EntriesOk(owner[Target(mem[f].e[i]) := Free], owner[h].root, owner[h].path, WriteEntry(mem, f, i, 0)[h])
  {
    hide V, Leaf, R, W, X, U, Target, PageOf;
    var t := Target(mem[f].e[i]);
    var r, p, mem', owner' := owner[h].root, owner[h].path, WriteEntry(mem, f, i, 0), owner[t := Free];
    ZeroIsInvalid();
    forall j | 0 <= j < ENTRIES
      ensures EntryOk(owner', r, Step(p, j), mem'[h].e[j])
    {
      assert EntryOk(owner, r, Step(p, j), mem[h].e[j]);
      if owner[t] == Node(r, Step(p, j)) { RoleIsUnique(mem, owner, f, h); }
    }
  }

  /** A zeroed frame is a tree of its own, and it translates nothing. */
  lemma NewRoot(mem: Mem, owner: Owners, g: nat)
    requires Forest(mem, owner) && g < TOTAL_PAGES && !owner[g].Node?
    ensures Forest(mem[g := ZeroTable()], owner[g := Node(g, Top)])
    ensures SameLeaves(mem, mem[g := ZeroTable()], owner)
    ensures forall q | PagePath(q) :: Entry(mem[g := ZeroTable()], g, q) == 0
  {
    hide V, Leaf, R, W, X, U, Target, EntriesOk, PageOf, LeafOk;
    var mem', owner' := mem[g := ZeroTable()], owner[g := Node(g, Top)];
    NonTableWrite(mem, owner, g, ZeroTable());
    forall h: nat | h < TOTAL_PAGES && owner[h].Node?
      ensures NodeOk(mem', owner', h)
    {
      assert NodeOk(mem', owner, h);
      NodeStays(mem', owner, mem', owner', h);
    }
    assert NodeOk(mem', owner', g) by { ZeroEntriesOk(owner', g, Top); }
    forall q | PagePath(q) ensures Entry(mem', g, q) == 0 {
      ZeroIsInvalid();
      assert Entry(mem', g, q.up.up) == 0;
      assert TableAt(mem', g, q.up.up) == -1 && Entry(mem', g, q.up) == 0;
      assert TableAt(mem', g, q.up) == -1;
    }
  }

  /** The owner map without the tree of `r`. */
  function WithoutTree(owner: Owners, r: nat): (owner': Owners)
    ensures |owner'| == |owner|
    ensures forall f {:trigger owner'[f]} | 0 <= f < |owner| ::
      owner'[f] == if owner[f].Node? && owner[f].root == r then Free else owner[f]
  {
    seq(|owner|, f requires 0 <= f < |owner| => if owner[f].Node? && owner[f].root == r then Free else owner[f])
  }

  /** Trees do not depend on each other. */
  lemma DropTree(mem: Mem, owner: Owners, r: nat)
    requires Forest(mem, owner)
    ensures Forest(mem, WithoutTree(owner, r))
  {
    hide V, Leaf, R, W, X, U, Target, PageOf;
    var owner' := WithoutTree(owner, r);
    forall h: nat | h < TOTAL_PAGES && owner'[h].Node?
      ensures NodeOk(mem, owner', h)
    {
      assert NodeOk(mem, owner, h);
      var p := owner[h].path;
      if p.Depth() < 3 {
        forall j | 0 <= j < ENTRIES
          ensures EntryOk(owner', owner[h].root, Step(p, j), mem[h].e[j])
        {
          assert EntryOk(owner, owner[h].root, Step(p, j), mem[h].e[j]);
        }
        assert EntriesOk(owner', owner[h].root, p, mem[h]);
      }
    }
  }
}
