/** How system calls reach user memory: user_range_ok, user_str_ok, and the copies in and out. */
module UserMem {
  import opened Sv39
  import opened PageTrees
  import opened Vmm
  import opened Mmu
  import Ramdisk

  /** The entry maps user memory with what `need` asks of R and W. */
  predicate Grants(w: Word, need: nat) { V(w) && U(w) && (R(need) ==> R(w)) && (W(need) ==> W(w)) }

  /** The range [va, va + len) is in the low half, and every page of it is user memory with the permissions needed. */
  ghost predicate RangeOk(mem: Mem, r: nat, va: nat, len: nat, need: nat) {
    && va != 0 && va + len <= LOW_HALF
    && forall page {:trigger PathOf(page)} | va / PAGE_SIZE <= page < PageCeil(va + len) && page < PAGES ::
      Grants(Entry(mem, r, PathOf(page)), need)
  }

  /** The checks of user_range_ok on the page at `p`. */
  method PageGrants(vm: AddressSpaces, root: nat, p: nat, need: nat) returns (ok: bool)
    requires vm.Valid() && IsRoot(vm.owner, root)
    ensures ok <==> Grants(Entry(vm.mem, root, VpnPath(p)), need)
  {
    hide V, R, W, U, Forest, VpnPath, Vpn;
    var found, table := vm.Lookup(root, p);
    ZeroIsInvalid();
    if !found || !V(vm.mem[table].e[Vpn(p, 0)]) || !U(vm.mem[table].e[Vpn(p, 0)]) { return false; }
    var pte := vm.mem[table].e[Vpn(p, 0)];
    ok := (R(need) ==> R(pte)) && (W(need) ==> W(pte));
  }

  /** Where the pages to be checked end; the sum is a 64-bit one. */
  function CheckEnd(va: nat, len: nat): nat { (va + len + 0xFFF) % WORD_LIMIT / PAGE_SIZE * PAGE_SIZE }

  /** Every page between two page addresses grants what is needed. */
  ghost predicate PagesGrant(mem: Mem, r: nat, start: nat, end: nat, need: nat) {
    forall p {:trigger VpnPath(p)} | start <= p < end && p % PAGE_SIZE == 0 :: Grants(Entry(mem, r, VpnPath(p)), need)
  }

  /** What user_range_ok lets pass. */
  ghost predicate Accepts(mem: Mem, r: nat, va: nat, len: nat, need: nat) {
    va != 0 && PagesGrant(mem, r, va / PAGE_SIZE * PAGE_SIZE, CheckEnd(va, len), need)
  }

  /** user_range_ok, on any pointer and length. */
  method UserRangeOk(vm: AddressSpaces, root: nat, va: Word, len: Word, need: nat) returns (ok: bool)
    requires vm.Valid() && IsRoot(vm.owner, root)
    ensures ok <==> Accepts(vm.mem, root, va, len, need)
    ensures va + len <= LOW_HALF ==> (ok <==> RangeOk(vm.mem, root, va, len, need))
  {
    hide Grants, Forest, PathOf, VpnPath, PagesGrant, CheckEnd, RangeOk;
    if va + len <= LOW_HALF { CheckIsRange(vm.mem, root, va, len, need); }
    if va == 0 { return false; }
    var p := va / PAGE_SIZE * PAGE_SIZE;
    var end := CheckEnd(va, len);
    ghost var start := p;
    NoPageYet(vm.mem, root, start, need);
    while p < end
      invariant p % PAGE_SIZE == 0 && start <= p
      invariant PagesGrant(vm.mem, root, start, p, need)
    {
      ok := PageGrants(vm, root, p, need);
      OneMorePage(vm.mem, root, start, p, end, need);
      if !ok { return; }
      p := p + PAGE_SIZE;
    }
    AllPages(vm.mem, root, start, p, end, need);
    ok := true;
  }

  lemma NoPageYet(mem: Mem, r: nat, start: nat, need: nat)
    ensures PagesGrant(mem, r, start, start, need)
  {
  }

  /** One more page checked: it grants, or the range does not. */
  lemma OneMorePage(mem: Mem, r: nat, start: nat, p: nat, end: nat, need: nat)
    requires start <= p < end && p % PAGE_SIZE == 0 && PagesGrant(mem, r, start, p, need)
    ensures if Grants(Entry(mem, r, VpnPath(p)), need) then PagesGrant(mem, r, start, p + PAGE_SIZE, need)
            else !PagesGrant(mem, r, start, end, need)
  {
    hide Grants, VpnPath, Entry;
    forall q: nat | p < q < p + PAGE_SIZE ensures q % PAGE_SIZE != 0 { BetweenPages(p, q); }
  }

  lemma BetweenPages(p: nat, q: nat)
    requires p % PAGE_SIZE == 0 && p < q < p + PAGE_SIZE
    ensures q % PAGE_SIZE != 0
  {
  }

  lemma AllPages(mem: Mem, r: nat, start: nat, p: nat, end: nat, need: nat)
    requires PagesGrant(mem, r, start, p, need) && end <= p
    ensures PagesGrant(mem, r, start, end, need)
  {
    hide Grants, VpnPath, Entry;
  }

  /** In the low half the pages checked are those of the range. */
  lemma CheckIsRange(mem: Mem, r: nat, va: nat, len: nat, need: nat)
    requires va + len <= LOW_HALF
    ensures Accepts(mem, r, va, len, need) <==> RangeOk(mem, r, va, len, need)
  {
    hide Grants, PathOf, VpnPath;
    assert CheckEnd(va, len) == PageCeil(va + len) * PAGE_SIZE;
    if PagesGrant(mem, r, va / PAGE_SIZE * PAGE_SIZE, CheckEnd(va, len), need) {
      forall page {:trigger PathOf(page)} | va / PAGE_SIZE <= page < PageCeil(va + len) && page < PAGES
        ensures Grants(Entry(mem, r, PathOf(page)), need)
      {
        VpnIsPath(page * PAGE_SIZE);
        assert page * PAGE_SIZE / PAGE_SIZE == page;
      }
    }
    if va != 0 && RangeOk(mem, r, va, len, need) {
      forall p {:trigger VpnPath(p)} | va / PAGE_SIZE * PAGE_SIZE <= p < CheckEnd(va, len) && p % PAGE_SIZE == 0
        ensures Grants(Entry(mem, r, VpnPath(p)), need)
      {
        VpnIsPath(p);
        assert va / PAGE_SIZE <= p / PAGE_SIZE < PageCeil(va + len);
      }
    }
  }

  lemma RangeIsLow(mem: Mem, r: nat, va: nat, len: nat, need: nat)
    requires RangeOk(mem, r, va, len, need)
    ensures va + len <= LOW_HALF
  {
  }

  /** Each byte of a range that passed lies in such a page. */
  lemma RangeByte(mem: Mem, r: nat, va: nat, len: nat, need: nat, x: nat)
    requires RangeOk(mem, r, va, len, need) && x < len
    ensures Grants(Entry(mem, r, VpnPath(va + x)), need)
  {
    hide PathOf, VpnPath, Grants;
    VpnIsPath(va + x);
  }

  /**
    What user_range_ok asks is what the hardware would let the program do itself: a range of the low
    half passes exactly when the program could load from, or store to, every byte of it.
   */
  lemma AcceptsIsAccess(mem: Mem, owner: Owners, r: nat, va: Word, len: nat, write: bool)
    requires Forest(mem, owner) && IsRoot(owner, r) && 0 < len && va + len <= LOW_HALF
    ensures Accepts(mem, r, va, len, if write then PTE_W else PTE_R) <==>
      && va != 0
      && forall a: nat {:trigger HwTranslate(mem, r, a, if write then Store else Load, true)} | va <= a < va + len ::
        HwTranslate(mem, r, a, if write then Store else Load, true) != -1
  {
    hide Forest, RangeOk, HwTranslate, PagesGrant, CheckEnd;
    var (need, acc) := if write then (PTE_W, Store) else (PTE_R, Load);
    CheckIsRange(mem, r, va, len, need);
    if Accepts(mem, r, va, len, need) {
      forall a: nat {:trigger HwTranslate(mem, r, a, acc, true)} | va <= a < va + len
        ensures HwTranslate(mem, r, a, acc, true) != -1
      {
        RangeByte(mem, r, va, len, need, a - va);
        GrantIsAccess(mem, owner, r, a, write);
      }
    } else if va != 0 && forall a: nat {:trigger HwTranslate(mem, r, a, acc, true)} | va <= a < va + len ::
                HwTranslate(mem, r, a, acc, true) != -1 {
      AccessIsRange(mem, owner, r, va, len, write);
    }
  }

  lemma AccessIsRange(mem: Mem, owner: Owners, r: nat, va: Word, len: nat, write: bool)
    requires Forest(mem, owner) && IsRoot(owner, r) && 0 < len && 0 < va && va + len <= LOW_HALF
    requires forall a: nat {:trigger HwTranslate(mem, r, a, if write then Store else Load, true)} | va <= a < va +
      len ::
      HwTranslate(mem, r, a, if write then Store else Load, true) != -1
    ensures RangeOk(mem, r, va, len, if write then PTE_W else PTE_R)
  {
    hide Forest, HwTranslate, Grants, PathOf, VpnPath;
    forall page {:trigger PathOf(page)} | va / PAGE_SIZE <= page < PageCeil(va + len) && page < PAGES
      ensures Grants(Entry(mem, r, PathOf(page)), if write then PTE_W else PTE_R)
    {
      var a := if page == va / PAGE_SIZE then va else page * PAGE_SIZE;
      assert va <= a < va + len && a / PAGE_SIZE == page;
      VpnIsPath(a);
      GrantIsAccess(mem, owner, r, a, write);
    }
  }

  lemma GrantIsAccess(mem: Mem, owner: Owners, r: nat, a: nat, write: bool)
    requires Forest(mem, owner) && IsRoot(owner, r) && a < LOW_HALF
    ensures Grants(Entry(mem, r, VpnPath(a)), if write then PTE_W else PTE_R) <==>
      HwTranslate(mem, r, a, if write then Store else Load, true) != -1
  {
    UserAccess(mem, owner, r, a);
    EntryRole(mem, owner, r, VpnPath(a));
    hide VpnPath, Forest, HwTranslate;
  }

  // ---- what the kernel can reach ----

  /** Nothing is mapped from the end of the low half on, as far as walks go. */
  ghost predicate HighUnmapped(mem: Mem, r: nat) {
    forall page {:trigger PathOf(page)} | LOW_HALF / PAGE_SIZE <= page < PAGES :: Entry(mem, r, PathOf(page)) == 0
  }

  /** The walk looks at no bit from 39 up. */
  lemma SameWalk(va: nat)
    ensures VpnPath(va) == VpnPath(va % (PAGES * PAGE_SIZE))
  {
    var low, q := va % 0x80_0000_0000, va / 0x80_0000_0000;
    assert va == low + 0x80_0000_0000 * q && low == va % (PAGES * PAGE_SIZE);
    assert va / 0x1000 == low / 0x1000 + 512 * (0x4_0000 * q);
    assert va / 0x20_0000 == low / 0x20_0000 + 512 * (512 * q);
    assert va / 0x4000_0000 == low / 0x4000_0000 + 512 * q;
    SameIndex(low / 0x1000, 0x4_0000 * q);
    SameIndex(low / 0x20_0000, 512 * q);
    SameIndex(low / 0x4000_0000, q);
  }

  lemma SameIndex(x: nat, q: nat)
    ensures (x + 512 * q) % 512 == x % 512
  {
  }

  /** At an address from the end of the low half on the kernel reaches nothing. */
  lemma HighFaults(mem: Mem, owner: Owners, r: nat, a: Word, acc: Access)
    requires Forest(mem, owner) && IsRoot(owner, r) && HighUnmapped(mem, r) && a >= LOW_HALF
    ensures HwTranslate(mem, r, a, acc, false) == -1
  {
    hide V, R, W, X, U, PathOf, VpnPath, HwTranslate;
    WalkAgrees(mem, owner, r, a, acc, false);
    if Canonical(a) {
      SameWalk(a);
      VpnIsPath(a % (PAGES * PAGE_SIZE));
      ZeroIsInvalid();
    }
  }

  /**
    The kernel reaches a range that user_range_ok let pass exactly when it is in the low half: the
    first byte of any other faults. In the low half it reaches every byte.
   */
  lemma KernelReaches(mem: Mem, owner: Owners, r: nat, va: Word, len: nat, need: nat, acc: Access)
    requires Forest(mem, owner) && IsRoot(owner, r) && HighUnmapped(mem, r)
    requires Accepts(mem, r, va, len, need) && 0 < len <= 0x1_0000_0000
    requires (acc.Load? && R(need)) || (acc.Store? && W(need))
    ensures HwTranslate(mem, r, va, acc, false) != -1 <==> va + len <= LOW_HALF
    ensures va + len <= LOW_HALF ==>
      forall a: nat {:trigger HwTranslate(mem, r, a, acc, false)} | va <= a < va + len ::
        HwTranslate(mem, r, a, acc, false) != -1
  {
    hide V, R, W, X, U, Leaf, PathOf, VpnPath, HwTranslate, Accepts, Forest, HighUnmapped;
    if va + len <= LOW_HALF {
      CheckIsRange(mem, r, va, len, need);
      forall a: nat {:trigger HwTranslate(mem, r, a, acc, false)} | va <= a < va + len
        ensures HwTranslate(mem, r, a, acc, false) != -1
      {
        RangeByte(mem, r, va, len, need, a - va);
        EntryRole(mem, owner, r, VpnPath(a));
        WalkAgrees(mem, owner, r, a, acc, false);
      }
    } else {
      AcceptedIsHigh(mem, r, va, len, need);
      HighFaults(mem, owner, r, va, acc);
    }
  }

  /** PTE_R and PTE_W as masks. */
  lemma NeedBits()
    ensures R(PTE_R) && W(PTE_W)
  {
  }

  /** A range that passed does not cross the end of the low half. */
  lemma AcceptedIsHigh(mem: Mem, r: nat, va: Word, len: nat, need: nat)
    requires HighUnmapped(mem, r) && Accepts(mem, r, va, len, need) && 0 < len <= 0x1_0000_0000 && va + len > LOW_HALF
    ensures va >= LOW_HALF
  {
    hide R, W, PathOf, VpnPath;
    if va < LOW_HALF {
      ZeroIsInvalid();
      VpnIsPath(LOW_HALF);
      assert LOW_HALF % PAGE_SIZE == 0 && va / PAGE_SIZE * PAGE_SIZE <= LOW_HALF < CheckEnd(va, len);
      assert !Grants(Entry(mem, r, VpnPath(LOW_HALF)), need);
    }
  }

  // ---- strings ----

  /** The program may read the byte at `a`, and it is `b`. */
  ghost predicate Reads(mem: Mem, r: nat, a: nat, b: byte) { RangeOk(mem, r, a, 1, PTE_R) && LoadByte(mem, r, a) == b }

  /** The C string at `s` is `name`. */
  ghost predicate UserString(mem: Mem, r: nat, s: nat, name: seq<byte>) {
    && Ramdisk.NoNul(name) && Reads(mem, r, s + |name|, 0)
    && forall i {:trigger name[i]} | 0 <= i < |name| :: Reads(mem, r, s + i, name[i])
  }

  lemma StringGoesOn(mem: Mem, r: nat, s: nat, name: seq<byte>, i: nat)
    requires UserString(mem, r, s, name) && i < |name|
    ensures !Reads(mem, r, s + i, 0)
  {
    assert Reads(mem, r, s + i, name[i]);
  }

  /** There is at most one string at an address. */
  lemma OneString(mem: Mem, r: nat, s: nat, n: seq<byte>, n': seq<byte>)
    requires UserString(mem, r, s, n) && UserString(mem, r, s, n')
    ensures n == n'
  {
    if |n| < |n'| { StringGoesOn(mem, r, s, n', |n|); }
    if |n'| < |n| { StringGoesOn(mem, r, s, n, |n'|); }
    forall i | 0 <= i < |n| ensures n[i] == n'[i] { assert Reads(mem, r, s + i, n[i]) && Reads(mem, r, s + i, n'[i]); }
  }

  /** A string whose first byte passes the check and is not there for the kernel to read. */
  ghost predicate StringFaults(mem: Mem, r: nat, s: nat) { s >= LOW_HALF && Accepts(mem, r, s, 1, PTE_R) }

  /**
    user_str_ok, with the string it walked over. It reads each byte right after checking it, and
    `faults` where there is none to read.
   */
  method UserStrOk(vm: AddressSpaces, root: nat, s: Word, max: nat) returns (ok: bool, faults: bool, name: seq<byte>)
    requires vm.Valid() && IsRoot(vm.owner, root) && HighUnmapped(vm.mem, root) && 0 < max <= 0x1_0000
    ensures faults <==> StringFaults(vm.mem, root, s)
    ensures ok ==> !faults && UserString(vm.mem, root, s, name) && |name| < max && Ramdisk.NoNul(name)
    ensures !ok && !faults ==>
      forall n {:trigger UserString(vm.mem, root, s, n)} | |n| < max :: !UserString(vm.mem, root, s, n)
  {
    hide Forest, RangeOk, LoadByte, Accepts, HwTranslate;
    name, faults := [], false;
    for i := 0 to max
      invariant |name| == i && Ramdisk.NoNul(name) && !faults && (i > 0 ==> s < LOW_HALF)
      invariant forall j {:trigger name[j]} | 0 <= j < i :: Reads(vm.mem, root, s + j, name[j])
    {
      var a := (s + i) % WORD_LIMIT;
      var fine := UserRangeOk(vm, root, a, 1, PTE_R);
      StringByte(vm.mem, vm.owner, root, s, i);
      if !fine { NoString(vm.mem, root, s, name, max); return false, false, name; }
      if HwTranslate(vm.mem, root, a, Load, false) == -1 { return false, true, name; }
      var b := LoadByte(vm.mem, root, a);
      if b == 0 { return true, false, name; }
      name := name + [b];
    }
    NoString(vm.mem, root, s, name, max);
    ok := false;
  }

  lemma JustAbove(mem: Mem, r: nat, a: nat)
    requires HighUnmapped(mem, r) && LOW_HALF <= a < PAGES * PAGE_SIZE - PAGE_SIZE
    ensures !Accepts(mem, r, a, 1, PTE_R)
  {
    hide R, W, PathOf, VpnPath;
    ZeroIsInvalid();
    var p := a / PAGE_SIZE * PAGE_SIZE;
    VpnIsPath(p);
    assert p / PAGE_SIZE == a / PAGE_SIZE && p % PAGE_SIZE == 0 && p < CheckEnd(a, 1);
    assert !Grants(Entry(mem, r, VpnPath(p)), PTE_R);
  }

  /** Byte `i` of a string that is in the low half up to there. */
  lemma StringByte(mem: Mem, owner: Owners, r: nat, s: Word, i: nat)
    requires Forest(mem, owner) && IsRoot(owner, r) && HighUnmapped(mem, r) && i < 0x1_0000 && (i > 0 ==> s < LOW_HALF)
    ensures var a := (s + i) % WORD_LIMIT;
      && (Accepts(mem, r, a, 1, PTE_R) ==>
        (HwTranslate(mem, r, a, Load, false) != -1 <==> s < LOW_HALF) && (s < LOW_HALF ==> a == s + i))
      && (s < LOW_HALF ==> (Accepts(mem, r, a, 1, PTE_R) <==> RangeOk(mem, r, s + i, 1, PTE_R)))
      && (s >= LOW_HALF && i == 0 ==> a == s && !RangeOk(mem, r, s, 1, PTE_R))
  {
    hide Accepts, HwTranslate, Forest, HighUnmapped;
    var a := (s + i) % WORD_LIMIT;
    if s < LOW_HALF <= s + i { JustAbove(mem, r, a); }
    if Accepts(mem, r, a, 1, PTE_R) { KernelReaches(mem, owner, r, a, 1, PTE_R, Load); }
    if a + 1 <= LOW_HALF { CheckIsRange(mem, r, a, 1, PTE_R); }
  }

  /** Where reading cannot go on, or has gone on long enough, no string of the length ends. */
  lemma NoString(mem: Mem, r: nat, s: nat, name: seq<byte>, max: nat)
    requires Ramdisk.NoNul(name) && forall j {:trigger name[j]} | 0 <= j < |name| :: Reads(mem, r, s + j, name[j])
    requires |name| >= max || !RangeOk(mem, r, s + |name|, 1, PTE_R)
    ensures forall n {:trigger UserString(mem, r, s, n)} | |n| < max :: !UserString(mem, r, s, n)
  {
    hide RangeOk, LoadByte;
    forall n {:trigger UserString(mem, r, s, n)} | |n| < max ensures !UserString(mem, r, s, n) {
      if |n| < |name| {
        assert Reads(mem, r, s + |n|, name[|n|]) && name[|n|] != 0;
      } else if |n| > |name| {
        assert !Reads(mem, r, s + |name|, n[|name|]);
      }
    }
  }

  // ---- stores ----

  /** Bytes written one after another from `va`. */
  function StoreBytes(mem: Mem, r: nat, va: nat, bytes: seq<byte>): (mem': Mem)
    ensures |mem'| == |mem|
  {
    if bytes == [] then mem
    else StoreByte(StoreBytes(mem, r, va, bytes[..|bytes| - 1]), r, va + |bytes| - 1, bytes[|bytes| - 1])
  }

  lemma StoreOneMore(mem: Mem, r: nat, va: nat, bytes: seq<byte>, b: byte)
    ensures StoreBytes(mem, r, va, bytes + [b]) == StoreByte(StoreBytes(mem, r, va, bytes), r, va + |bytes|, b)
  {
    hide StoreByte;
    assert (bytes + [b])[..|bytes|] == bytes;
  }

  /** Two addresses in the same page and at the same place in it are the same. */
  lemma AddressesDiffer(a: nat, b: nat)
    requires a < PAGES * PAGE_SIZE && b < PAGES * PAGE_SIZE && a != b
    ensures VpnPath(a) != VpnPath(b) || a % PAGE_SIZE != b % PAGE_SIZE
  {
    hide PathOf, VpnPath;
    VpnIsPath(a);
    VpnIsPath(b);
    assert a == a / PAGE_SIZE * PAGE_SIZE + a % PAGE_SIZE && b == b / PAGE_SIZE * PAGE_SIZE + b % PAGE_SIZE;
  }

  ghost predicate BytesAt(mem: Mem, r: nat, va: nat, bytes: seq<byte>) {
    forall i {:trigger bytes[i]} | 0 <= i < |bytes| :: LoadByte(mem, r, va + i) == bytes[i]
  }

  predicate UserPageOf(o: Owner, r: nat) { o.Node? && o.root == r && o.path.Depth() == 3 }

  /**
    A copy to a checked user range: the bytes are there afterwards, every other user byte of the
    process is as before, and so is everything outside the process's user pages.
   */
  lemma {:induction false} BytesStored(mem: Mem, owner: Owners, r: nat, va: nat, len: nat, bytes: seq<byte>)
    requires Forest(mem, owner) && IsRoot(owner, r) && RangeOk(mem, r, va, len, PTE_W) && |bytes| <= len
    ensures var mem' := StoreBytes(mem, r, va, bytes);
      && Forest(mem', owner) && SameLeaves(mem, mem', owner)
      && (forall f {:trigger mem'[f]} | 0 <= f < TOTAL_PAGES && !UserPageOf(owner[f], r) :: mem'[f] == mem[f])
      && BytesAt(mem', r, va, bytes)
      && (forall a: nat {:trigger LoadByte(mem', r, a)} |
             a < PAGES * PAGE_SIZE && !(va <= a < va + |bytes|) && UserLeaf(Entry(mem, r, VpnPath(a))) ::
            LoadByte(mem', r, a) == LoadByte(mem, r, a))
    decreases |bytes|
  {
    hide V, R, W, X, U, Leaf, Target, PathOf, Vpn, VpnPath, LoadByte, StoreByte, RangeOk, Forest;
    if bytes == [] { return; }
    RangeIsLow(mem, r, va, len, PTE_W);
    var n := |bytes| - 1;
    BytesStored(mem, owner, r, va, len, bytes[..n]);
    var mem1 := StoreBytes(mem, r, va, bytes[..n]);
    RangeByte(mem, r, va, len, PTE_W, n);
    EntryRole(mem, owner, r, VpnPath(va + n));
    assert Entry(mem1, r, VpnPath(va + n)) == Entry(mem, r, VpnPath(va + n));
    StoreToUserPage(mem1, owner, r, va + n, bytes[n]);
    var mem' := StoreBytes(mem, r, va, bytes);
    assert mem' == StoreByte(mem1, r, va + n, bytes[n]);
    forall i {:trigger bytes[i]} | 0 <= i < |bytes| ensures LoadByte(mem', r, va + i) == bytes[i] {
      if i < n {
        assert bytes[..n][i] == bytes[i];
        RangeByte(mem, r, va, len, PTE_W, i);
        EntryRole(mem, owner, r, VpnPath(va + i));
        assert Entry(mem1, r, VpnPath(va + i)) == Entry(mem, r, VpnPath(va + i));
        AddressesDiffer(va + n, va + i);
        assert OtherUserByte(mem1, r, va + n, va + i);
      }
    }
    forall a: nat {:trigger LoadByte(mem', r, a)} | a < PAGES * PAGE_SIZE && !(va <= a < va + |bytes|)
      && UserLeaf(Entry(mem, r, VpnPath(a)))
      ensures LoadByte(mem', r, a) == LoadByte(mem, r, a)
    {
      assert Entry(mem1, r, VpnPath(a)) == Entry(mem, r, VpnPath(a));
      AddressesDiffer(va + n, a);
      assert OtherUserByte(mem1, r, va + n, a);
    }
  }

  lemma NoneStored(mem: Mem, root: nat, buffer: nat)
    ensures StoreBytes(mem, root, buffer, []) == mem
  {
  }

  /** `buffer[n] = c` after `bytes` were written from the start of the buffer. */
  method PutByte(vm: AddressSpaces, root: nat, buffer: nat, ghost size: nat, n: nat, ghost bytes: seq<byte>, c: byte,
                 ghost mem0: Mem)
    requires vm.Valid() && Forest(mem0, vm.owner) && IsRoot(vm.owner, root)
    requires n == |bytes| < size && RangeOk(mem0, root, buffer, size, PTE_W)
    requires vm.mem == StoreBytes(mem0, root, buffer, bytes)
    modifies vm`mem
    ensures vm.Valid() && vm.mem == StoreBytes(mem0, root, buffer, bytes + [c])
    ensures LoadByte(vm.mem, root, buffer + |bytes|) == c
  {
    hide RangeOk, StoreByte, StoreBytes, LoadByte, Forest;
    StoreOneMore(mem0, root, buffer, bytes, c);
    BytesStored(mem0, vm.owner, root, buffer, size, bytes + [c]);
    assert (bytes + [c])[|bytes|] == c;
    vm.mem := StoreByte(vm.mem, root, buffer + n, c);
  }

  /** memcpy to a checked user range. */
  method CopyOut(vm: AddressSpaces, root: nat, buffer: nat, ghost size: nat, bytes: seq<byte>)
    requires vm.Valid() && IsRoot(vm.owner, root)
    requires |bytes| <= size && RangeOk(vm.mem, root, buffer, size, PTE_W)
    modifies vm`mem
    ensures vm.Valid() && vm.mem == StoreBytes(old(vm.mem), root, buffer, bytes)
  {
    hide RangeOk, StoreByte, StoreBytes, LoadByte, Forest;
    NoneStored(vm.mem, root, buffer);
    for n := 0 to |bytes|
      invariant vm.Valid() && vm.mem == StoreBytes(old(vm.mem), root, buffer, bytes[..n])
    {
      PutByte(vm, root, buffer, size, n, bytes[..n], bytes[n], old(vm.mem));
      assert bytes[..n] + [bytes[n]] == bytes[..n + 1];
    }
    assert bytes[..|bytes|] == bytes;
  }

  /** What a program has in memory from `va` on. */
  function UserBytes(mem: Mem, r: nat, va: nat, n: nat): (s: seq<byte>)
    ensures |s| == n && forall i | 0 <= i < n :: s[i] == LoadByte(mem, r, va + i)
  {
    seq(n, i requires 0 <= i => LoadByte(mem, r, va + i))
  }
}
