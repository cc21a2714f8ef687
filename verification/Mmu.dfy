/**
  What the hardware does with the page tables: the address translation of sections 4.3.2 and 4.4.1
  of the RISC-V Privileged Architecture (20211203) for Sv39, and loads and stores through it. The kernel
  walks tables without looking for leaves above the last level; `WalkAgrees` says why it may.
 */
module Mmu {
  import opened Sv39
  import opened PageTrees

  datatype Access = Load | Store | Fetch

  predicate Permits(pte: nat, acc: Access, user: bool) {
    && (acc.Load? ==> R(pte)) && (acc.Store? ==> W(pte)) && (acc.Fetch? ==> X(pte))
    && (user ==> U(pte))
  }

  /** Steps 2 to 5 of the algorithm at `level`, in the table with physical page number `ppn`; -1 is a page fault. */
  function HwStep(mem: Mem, ppn: nat, va: nat, level: nat, acc: Access, user: bool): int
    requires level < 3
    decreases level
  {
    var pte := ReadPte(mem, ppn - PHYSICAL_RAM_START / PAGE_SIZE, Vpn(va, level));
    if !V(pte) || (!R(pte) && W(pte)) then -1
    else if R(pte) || X(pte) then
      if !Permits(pte, acc, user) then -1
      else if level == 0 then pte / 1024 * PAGE_SIZE + va % PAGE_SIZE
      else if level == 1 then (if pte / 1024 % 512 != 0 then -1 else pte / 1024 * PAGE_SIZE + va % 0x20_0000)
      else if pte / 1024 % 0x4_0000 != 0 then -1 else pte / 1024 * PAGE_SIZE + va % 0x4000_0000
    else if level == 0 then -1
    else HwStep(mem, pte / 1024, va, level - 1, acc, user)
  }

  /** Where the low half of the canonical addresses ends. */
  const LOW_HALF := 0x40_0000_0000

  /** Bits 63 to 39 of the address equal bit 38. */
  predicate Canonical(va: nat) { va < LOW_HALF || WORD_LIMIT - LOW_HALF <= va < WORD_LIMIT }

  /**
    The physical address of `va` under the root table in frame `root`, or -1 for a fault, as for
    every address that is not canonical.
   */
  function HwTranslate(mem: Mem, root: nat, va: nat, acc: Access, user: bool): int {
    if Canonical(va) then HwStep(mem, PHYSICAL_RAM_START / PAGE_SIZE + root, va, 2, acc, user) else -1
  }

  /** What the last-level entry `pte` gives for `va`. */
  function LeafTranslate(pte: nat, va: nat, acc: Access, user: bool): int {
    if V(pte) && (R(pte) || !W(pte)) && Permits(pte, acc, user) then pte / 1024 * PAGE_SIZE + va % PAGE_SIZE else -1
  }

  /**
    On canonical addresses the hardware's translation is the entry that the kernel's own walk finds,
    for every tree of a forest. On all others the hardware faults, while the walk, which looks at no
    bit from 39 up, finds the entry of another address.
   */
  lemma WalkAgrees(mem: Mem, owner: Owners, r: nat, va: nat, acc: Access, user: bool)
    requires Forest(mem, owner) && IsRoot(owner, r)
    ensures HwTranslate(mem, r, va, acc, user) ==
      if Canonical(va) then LeafTranslate(Entry(mem, r, VpnPath(va)), va, acc, user) else -1
  {
    hide V, R, W, X, U, Target, Vpn, PageOf;
    var p2 := Step(Top, Vpn(va, 2));
    var p1 := Step(p2, Vpn(va, 1));
    TableStep(mem, owner, r, Top, va, 2, acc, user);
    TableStep(mem, owner, r, p2, va, 1, acc, user);
    EntryRole(mem, owner, r, VpnPath(va));
    ZeroIsInvalid();
    assert VpnPath(va) == Step(p1, Vpn(va, 0));
  }

  function HwAt(mem: Mem, t: int, va: nat, level: nat, acc: Access, user: bool): int
    requires InRam(t) && level < 3
  {
    HwStep(mem, PHYSICAL_RAM_START / PAGE_SIZE + t, va, level, acc, user)
  }

  /** Above the last level the hardware finds a pointer where the kernel does, and faults elsewhere. */
  lemma TableStep(mem: Mem, owner: Owners, r: nat, p: Path, va: nat, level: nat, acc: Access, user: bool)
    requires Forest(mem, owner) && IsRoot(owner, r) && 0 < level < 3
    requires p.Valid() && p.Depth() == 2 - level
    ensures TableAt(mem, r, p) == -1 ==> TableAt(mem, r, Step(p, Vpn(va, level))) == -1
    ensures TableAt(mem, r, Step(p, Vpn(va, level))) != -1 ==> InRam(TableAt(mem, r, Step(p, Vpn(va, level))))
    ensures TableAt(mem, r, p) != -1 ==> InRam(TableAt(mem, r, p))
    ensures TableAt(mem, r, p) != -1 ==>
      HwAt(mem, TableAt(mem, r, p), va, level, acc, user) ==
        (if TableAt(mem, r, Step(p, Vpn(va, level))) == -1 then -1
         else HwAt(mem, TableAt(mem, r, Step(p, Vpn(va, level))), va, level - 1, acc, user))
  {
    hide V, R, W, X, U, Vpn, PageOf;
    TableRole(mem, owner, r, p);
    ZeroIsInvalid();
    EntryRole(mem, owner, r, Step(p, Vpn(va, level)));
  }

  /** What the program may do at an address of a user page: what the three permission bits of its entry say. */
  lemma UserAccess(mem: Mem, owner: Owners, r: nat, va: nat)
    requires Forest(mem, owner) && IsRoot(owner, r) && va < LOW_HALF
    ensures var w := Entry(mem, r, VpnPath(va));
      && (HwTranslate(mem, r, va, Load, true) != -1 <==> V(w) && U(w) && R(w))
      && (HwTranslate(mem, r, va, Store, true) != -1 <==> V(w) && U(w) && W(w) && R(w))
      && (HwTranslate(mem, r, va, Fetch, true) != -1 <==> V(w) && U(w) && X(w) && (W(w) ==> R(w)))
  {
    hide Forest, VpnPath, Entry, HwTranslate, V, R, W, X, U;
    WalkAgrees(mem, owner, r, va, Load, true);
    WalkAgrees(mem, owner, r, va, Store, true);
    WalkAgrees(mem, owner, r, va, Fetch, true);
  }

  // ---- loads and stores ----

  /** The byte at `va`, for an address that translates to a frame of memory. */
  function LoadByte(mem: Mem, root: nat, va: nat): byte {
    var t := Target(Entry(mem, root, VpnPath(va)));
    if 0 <= t < |mem| && PageShape(mem[t]) then mem[t].b[va % PAGE_SIZE] else 0
  }

  function StoreByte(mem: Mem, root: nat, va: nat, b: byte): (mem': Mem)
    ensures |mem'| == |mem|
  {
    var t := Target(Entry(mem, root, VpnPath(va)));
    if 0 <= t < |mem| && PageShape(mem[t]) then mem[t := Bytes(mem[t].b[va % PAGE_SIZE := b])] else mem
  }

  /** `va'` is user memory, and not the byte at `va`. */
  predicate OtherUserByte(mem: Mem, r: nat, va: nat, va': nat) {
    && UserLeaf(Entry(mem, r, VpnPath(va')))
    && (VpnPath(va') != VpnPath(va) || va' % PAGE_SIZE != va % PAGE_SIZE)
  }

  /** Writing to a user page is seen by no walk. */
  lemma PageWrite(mem: Mem, owner: Owners, t: nat, v: Frame)
    requires Forest(mem, owner) && t < TOTAL_PAGES && owner[t].Node? && owner[t].path.Depth() == 3 && PageShape(v)
    ensures Forest(mem[t := v], owner) && SameLeaves(mem, mem[t := v], owner)
  {
    hide V, Leaf, U, Target, EntriesOk;
    var mem' := mem[t := v];
    forall r, q: Path {:trigger Entry(mem', r, q)} | IsRoot(owner, r) && 0 < q.Depth() <= 3 && q.Valid()
      ensures Entry(mem', r, q) == Entry(mem, r, q)
    {
      EntryFrame(mem, mem', owner, r, q);
    }
    forall h: nat | h < TOTAL_PAGES && owner[h].Node?
      ensures NodeOk(mem', owner, h)
    {
      assert NodeOk(mem, owner, h);
      if owner[h].path.Depth() < 3 { NodeStays(mem, owner, mem', owner, h); }
    }
  }

  /**
    Isolation: a store the hardware lets user mode make through tree `r` lands in the frame whose
    role is that very page of `r`. Tables, kernel memory and every other process keep every byte,
    all translations are as before, the byte stored is the byte read back, and no other user byte
    of the tree changes.
   */
  lemma UserStoreIsConfined(mem: Mem, owner: Owners, r: nat, va: nat, b: byte)
    requires Forest(mem, owner) && IsRoot(owner, r) && HwTranslate(mem, r, va, Store, true) != -1
    ensures var mem' := StoreByte(mem, r, va, b);
      && HwTranslate(mem, r, va, Store, true) == FrameAddrOf(mem, r, va) + va % PAGE_SIZE
      && Forest(mem', owner) && SameLeaves(mem, mem', owner)
      && (forall f | 0 <= f < TOTAL_PAGES && owner[f] != Node(r, VpnPath(va)) :: mem'[f] == mem[f])
      && LoadByte(mem', r, va) == b
      && (forall va': nat | OtherUserByte(mem, r, va, va') ::
            LoadByte(mem', r, va') == LoadByte(mem, r, va'))
  {
    hide V, R, W, X, PageOf;
    WalkAgrees(mem, owner, r, va, Store, true);
    StoreToUserPage(mem, owner, r, va, b);
  }

  function FrameAddrOf(mem: Mem, r: nat, va: nat): nat { Entry(mem, r, VpnPath(va)) / 1024 * PAGE_SIZE }

  /** The same for any page mapped for the user. */
  lemma StoreToUserPage(mem: Mem, owner: Owners, r: nat, va: nat, b: byte)
    requires Forest(mem, owner) && IsRoot(owner, r) && V(Entry(mem, r, VpnPath(va))) && U(Entry(mem, r, VpnPath(va)))
    ensures var mem' := StoreByte(mem, r, va, b);
      && Forest(mem', owner) && SameLeaves(mem, mem', owner)
      && (forall f | 0 <= f < TOTAL_PAGES && owner[f] != Node(r, VpnPath(va)) :: mem'[f] == mem[f])
      && LoadByte(mem', r, va) == b
      && (forall va': nat | OtherUserByte(mem, r, va, va') ::
            LoadByte(mem', r, va') == LoadByte(mem, r, va'))
  {
    hide V, R, W, X, U, Target, PageOf, Vpn;
    var p := VpnPath(va);
    EntryRole(mem, owner, r, p);
    var t := Target(Entry(mem, r, p));
    assert NodeOk(mem, owner, t);
    var mem' := StoreByte(mem, r, va, b);
    PageWrite(mem, owner, t, mem'[t]);
    forall va': nat | OtherUserByte(mem, r, va, va')
      ensures LoadByte(mem', r, va') == LoadByte(mem, r, va')
    {
      LoadElsewhere(mem, owner, r, va, va', b);
    }
  }

  lemma LoadElsewhere(mem: Mem, owner: Owners, r: nat, va: nat, va': nat, b: byte)
    requires Forest(mem, owner) && IsRoot(owner, r) && V(Entry(mem, r, VpnPath(va))) && U(Entry(mem, r, VpnPath(va)))
    requires OtherUserByte(mem, r, va, va')
    requires SameLeaves(mem, StoreByte(mem, r, va, b), owner)
    ensures LoadByte(StoreByte(mem, r, va, b), r, va') == LoadByte(mem, r, va')
  {
    hide V, R, W, X, U, PageOf, Vpn;
    EntryRole(mem, owner, r, VpnPath(va));
    EntryRole(mem, owner, r, VpnPath(va'));
  }
}
