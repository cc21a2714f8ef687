/** load_elf of kernel/proc/process.c: from an ELF64 file in the RAMDISK image to a mapped program. */
module Elf {
  import opened Sv39
  import opened Bytes
  import opened Platform
  import opened PageTrees
  import opened Budget
  import opened Vmm
  import opened Mmu

  const ELF_NUM := 0x464C457F
  const PT_LOAD := 1
  const IMAGE_LIMIT := 0x0400_0000
  const STACK_TOP := 0x4000_0000

  // ---- reading the file ----

  datatype Phdr = Phdr(ptype: nat, flags: nat, offset: nat, vaddr: nat, filesz: nat, memsz: nat) {
    predicate Load() { ptype == PT_LOAD }
    function FirstPage(): nat { vaddr / PAGE_SIZE }
    function EndPage(): nat { PageCeil(vaddr + memsz) }

    /** PTE_U and the segment's own permissions, without X when it is writable. */
    function PteFlags(): nat {
      var w := flags / 2 % 2 == 1;
      PTE_U + (if flags / 4 % 2 == 1 then PTE_R else 0) + (if w then PTE_W else 0)
        + (if flags % 2 == 1 && !w then PTE_X else 0)
    }

    /** What the loader relies on for a segment it maps. */
    predicate Good() {
      vaddr % PAGE_SIZE == 0 && filesz <= memsz && vaddr + memsz <= IMAGE_LIMIT && UserFlags(PteFlags())
    }
  }

  function Magic(img: seq<byte>, at: nat): nat { LE(img, at, 4) }
  function EntryPoint(img: seq<byte>, at: nat): Word {
    Word64Bound(img, at + 24);
    LE(img, at + 24, 8)
  }
  function PhdrCount(img: seq<byte>, at: nat): nat { LE(img, at + 56, 2) }

  function PhdrAt(img: seq<byte>, at: nat, i: nat): Phdr {
    var p := at + LE(img, at + 32, 8) + 56 * i;
    Phdr(LE(img, p, 4), LE(img, p + 4, 4), LE(img, p + 8, 8), LE(img, p + 16, 8), LE(img, p + 32, 8),
         LE(img, p + 40, 8))
  }

  /** A program header as elf.h lays it out. */
  function PhdrBytes(ph: Phdr, paddr: nat, align: nat): (s: seq<byte>)
    ensures |s| == 56
  {
    Word32(ph.ptype) + Word32(ph.flags) + Word64(ph.offset) + Word64(ph.vaddr) + Word64(paddr) + Word64(ph.filesz)
    + Word64(ph.memsz) + Word64(align)
  }

  lemma PhdrFields(ph: Phdr, paddr: nat, align: nat)
    ensures var b := PhdrBytes(ph, paddr, align);
      && b[0..4] == Word32(ph.ptype) && b[4..8] == Word32(ph.flags) && b[8..16] == Word64(ph.offset)
      && b[16..24] == Word64(ph.vaddr) && b[32..40] == Word64(ph.filesz) && b[40..48] == Word64(ph.memsz)
  {
    hide Word32, Word64;
  }

  lemma Within(img: seq<byte>, p: nat, b: seq<byte>, i: nat, j: nat)
    requires p + |b| <= |img| && img[p..p + |b|] == b && i <= j <= |b|
    ensures img[p + i..p + j] == b[i..j]
  {
    forall k | i <= k < j ensures img[p + k] == b[k] { assert img[p..p + |b|][k] == img[p + k]; }
  }

  /** Entry `i` of the table that e_phoff points to is read as it was written. */
  lemma PhdrRoundTrip(img: seq<byte>, at: nat, i: nat, phoff: nat, ph: Phdr, paddr: nat, align: nat)
    requires phoff < WORD_LIMIT && at + 40 <= |img| && img[at + 32..at + 40] == Word64(phoff)
    requires at + phoff + 56 * i + 56 <= |img|
    requires img[at + phoff + 56 * i..at + phoff + 56 * i + 56] == PhdrBytes(ph, paddr, align)
    requires ph.ptype < 0x1_0000_0000 && ph.flags < 0x1_0000_0000
    requires ph.offset < WORD_LIMIT && ph.vaddr < WORD_LIMIT && ph.filesz < WORD_LIMIT && ph.memsz < WORD_LIMIT
    ensures PhdrAt(img, at, i) == ph
  {
    hide LE, Word32, Word64;
    Word64RoundTrip(img, at + 32, phoff);
    var p := at + phoff + 56 * i;
    var b := PhdrBytes(ph, paddr, align);
    PhdrFields(ph, paddr, align);
    Within(img, p, b, 0, 4);
    Within(img, p, b, 4, 8);
    Within(img, p, b, 8, 16);
    Within(img, p, b, 16, 24);
    Within(img, p, b, 32, 40);
    Within(img, p, b, 40, 48);
    hide PhdrBytes;
    Word32RoundTrip(img, p, ph.ptype);
    Word32RoundTrip(img, p + 4, ph.flags);
    Word64RoundTrip(img, p + 8, ph.offset);
    Word64RoundTrip(img, p + 16, ph.vaddr);
    Word64RoundTrip(img, p + 32, ph.filesz);
    Word64RoundTrip(img, p + 40, ph.memsz);
  }

  /** Segments are page-aligned, below IMAGE_LIMIT, no bigger in the file than in memory, and share no page. */
  ghost predicate GoodImage(img: seq<byte>, at: nat) {
    && (forall i {:trigger PhdrAt(img, at, i)} | 0 <= i < PhdrCount(img, at) && PhdrAt(img, at, i).Load() ::
      PhdrAt(img, at, i).Good())
    && (forall i, j {:trigger PhdrAt(img, at, i), PhdrAt(img, at, j)}
          | 0 <= i < j < PhdrCount(img, at) && PhdrAt(img, at, i).Load() && PhdrAt(img, at, j).Load() ::
          PhdrAt(img, at, i).EndPage() <= PhdrAt(img, at, j).FirstPage() ||
            PhdrAt(img, at, j).EndPage() <= PhdrAt(img, at, i).FirstPage())
  }

  /**
    Why a segment that is writable must be readable and one with no permission is excluded: W
    without R gives a leaf with only W and U, which Sv39 reserves, so that every access through it
    faults, the kernel's own too, although user_range_ok accepts it; no permission gives an entry
    that is no leaf, and none of the kernel's walks would see a page there.
   */
  lemma BadSegmentEntries(ph: Phdr, pa: Word, va: nat, acc: Access, user: bool)
    requires ph.flags / 4 % 2 == 0
    ensures var w := MakePte(pa, ph.PteFlags());
      && (ph.flags / 2 % 2 == 1 ==> V(w) && U(w) && W(w) && !R(w) && !X(w) && LeafTranslate(w, va, acc, user) == -1)
      && (ph.flags / 2 % 2 == 0 && ph.flags % 2 == 0 ==> V(w) && U(w) && !Leaf(w))
      && (ph.flags / 2 % 2 == 0 && ph.flags % 2 == 1 ==> UserLeaf(w) && UserFlags(ph.PteFlags()))
  {
    PteFields(pa, ph.PteFlags());
    hide MakePte;
  }

  /** The permissions of an entry made for a segment, from the bits of its p_flags: R is 4, W is 2, X is 1. */
  lemma SegmentBits(ph: Phdr, w: Word)
    requires ph.PteFlags() < 1024 && w % 1024 == WithV(ph.PteFlags())
    ensures V(w) && U(w) && (R(w) <==> ph.flags / 4 % 2 == 1) && (W(w) <==> ph.flags / 2 % 2 == 1)
    ensures X(w) <==> ph.flags % 2 == 1 && ph.flags / 2 % 2 == 0
  {
    hide V, R, W, X, U;
    LowBits(w / 1024, w % 1024);
    FlagBits(ph);
  }

  lemma FlagBits(ph: Phdr)
    ensures var f := ph.PteFlags();
      && f < 1024 && U(f) && (R(f) <==> ph.flags / 4 % 2 == 1) && (W(f) <==> ph.flags / 2 % 2 == 1)
      && (X(f) <==> ph.flags % 2 == 1 && ph.flags / 2 % 2 == 0)
  {
  }

  // ---- what the file describes ----

  /** Byte `x` of a segment's memory: the file's byte, or zero past the file's part. */
  function SegByte(img: seq<byte>, at: nat, ph: Phdr, x: nat): byte {
    if x < ph.filesz then ByteAt(img, at + ph.offset + x) else 0
  }

  function SegPage(img: seq<byte>, at: nat, ph: Phdr, k: nat): (v: Frame)
    ensures PageShape(v)
  {
    Bytes(seq(PAGE_SIZE, j requires 0 <= j => SegByte(img, at, ph, k * PAGE_SIZE + j)))
  }

  /** The first `n` pages of segment `ph` are in place. */
  ghost predicate SegLoaded(mem: Mem, r: nat, img: seq<byte>, at: nat, ph: Phdr, n: nat)
  {
    && ph.FirstPage() + n <= PAGES && ph.PteFlags() < 1024
    && forall k {:trigger SegPage(img, at, ph, k)} | 0 <= k < n ::
         PageHolds(mem, r, PathOf(ph.FirstPage() + k), SegPage(img, at, ph, k), ph.PteFlags())
  }

  /** `page` belongs to one of the first `n` segments. */
  ghost predicate Covered(img: seq<byte>, at: nat, n: nat, page: nat) {
    exists i {:trigger PhdrAt(img, at, i)} :: 0 <= i < n && PhdrAt(img, at, i).Load()
      && PhdrAt(img, at, i).FirstPage() <= page < PhdrAt(img, at, i).EndPage()
  }

  /** Highest end of the first `n` segments. */
  function MaxEnd(img: seq<byte>, at: nat, n: nat): nat {
    if n == 0 then 0
    else
      var (rest, ph) := (MaxEnd(img, at, n - 1), PhdrAt(img, at, n - 1));
      if ph.Load() && ph.vaddr + ph.memsz > rest then ph.vaddr + ph.memsz else rest
  }

  /** The pages of the first `n` segments, and the tables on the way to them. */
  function ImagePages(img: seq<byte>, at: nat, n: nat): nat {
    if n == 0 then 0
    else
      var ph := PhdrAt(img, at, n - 1);
      ImagePages(img, at, n - 1) +
        (if ph.Load() && ph.FirstPage() <= ph.EndPage() then ph.EndPage() - ph.FirstPage() else 0)
  }

  function ImageTables(img: seq<byte>, at: nat, n: nat): set<Path> {
    if n == 0 then {}
    else
      var ph := PhdrAt(img, at, n - 1);
      ImageTables(img, at, n - 1) +
        (if ph.Load() && ph.EndPage() <= PAGES then RangeTables(ph.FirstPage(), ph.EndPage()) else {})
  }

  lemma {:induction false} ImageIsMonotone(img: seq<byte>, at: nat, m: nat, n: nat)
    requires m <= n
    ensures ImageTables(img, at, m) <= ImageTables(img, at, n) && ImagePages(img, at, m) <= ImagePages(img, at, n)
    decreases n
  {
    hide PhdrAt, RangeTables;
    if m < n { ImageIsMonotone(img, at, m, n - 1); }
  }

  /** One more segment: paid for, or the image could not be. */
  lemma NextSegment(owner: Owners, owner1: Owners, owner2: Owners, r: nat, img: seq<byte>, at: nat, i: nat, n: nat)
    requires i < n && PhdrAt(img, at, i).Load()
    requires PhdrAt(img, at, i).FirstPage() <= PhdrAt(img, at, i).EndPage() <= PAGES
    requires Spent(owner, owner1, r, ImageTables(img, at, i), ImagePages(img, at, i))
    ensures var (lo, hi) := (PhdrAt(img, at, i).FirstPage(), PhdrAt(img, at, i).EndPage());
      && (Spent(owner1, owner2, r, RangeTables(lo, hi), hi - lo) ==>
            Spent(owner, owner2, r, ImageTables(img, at, i + 1), ImagePages(img, at, i + 1)))
      && (Short(owner1, r, RangeTables(lo, hi), hi - lo) ==>
        Short(owner, r, ImageTables(img, at, n), ImagePages(img, at, n)))
  {
    hide PhdrAt, RangeTables, Spent, Short;
    var (lo, hi) := (PhdrAt(img, at, i).FirstPage(), PhdrAt(img, at, i).EndPage());
    ImageIsMonotone(img, at, i + 1, n);
    NextPart(owner, owner1, owner2, r, ImageTables(img, at, i), ImagePages(img, at, i), RangeTables(lo, hi), hi - lo,
      ImageTables(img, at, n), ImagePages(img, at, n));
  }

  /** A page mapped only when its frame and bytes are still there after more of the tree is built. */
  lemma HoldsStays(mem: Mem, owner: Owners, mem': Mem, owner': Owners, r: nat, p: Path, content: Frame, flags: nat)
    requires Forest(mem, owner) && IsRoot(owner, r) && TreeGrowth(mem, owner, mem', owner', r)
    requires PagePath(p) && flags < 1024 && PageHolds(mem, r, p, content, flags)
    requires Entry(mem', r, p) == Entry(mem, r, p)
    ensures PageHolds(mem', r, p, content, flags)
  {
    hide V, R, W, X, U, Target, Leaf, PageOf;
    EntryRole(mem, owner, r, p);
  }

  // ---- load_elf ----

  datatype Loaded = Running(sepc: Word, sp: Word, heapBreak: nat, heapMax: nat) | Refused | Panic

  ghost predicate KernelOnly(mem: Mem, lay: Layout, r: nat) {
    forall page {:trigger PathOf(page)} | 0 <= page < PAGES :: Entry(mem, r, PathOf(page)) == KernelPte(lay, page)
  }

  /** The state of the nested loops: segments before `i` are in place, `k` pages of segment `i`, and nothing else is. */
  ghost predicate Progress(mem: Mem, lay: Layout, r: nat, img: seq<byte>, at: nat, i: nat, k: nat)
    requires k > 0 ==> i < PhdrCount(img, at)
  {
    && (forall j {:trigger PhdrAt(img, at, j)} | 0 <= j < i && PhdrAt(img, at, j).Load() ::
          SegLoaded(mem, r, img, at, PhdrAt(img, at, j), PhdrAt(img, at, j).EndPage() - PhdrAt(img, at, j).FirstPage()))
    && (k > 0 ==> SegLoaded(mem, r, img, at, PhdrAt(img, at, i), k))
    && forall page {:trigger PathOf(page)} | 0 <= page < PAGES ::
         Covered(img, at, i, page) ||
         (k > 0 && PhdrAt(img, at, i).FirstPage() <= page < PhdrAt(img, at, i).FirstPage() + k) ||
           Entry(mem, r, PathOf(page)) == KernelPte(lay, page)
  }

  /** A page below the image limit that no segment has claimed is not mapped. */
  lemma UnclaimedPage(mem: Mem, lay: Layout, r: nat, img: seq<byte>, at: nat, i: nat, k: nat)
    requires lay.Valid() && GoodImage(img, at) && i < PhdrCount(img, at) && Progress(mem, lay, r, img, at, i, k)
    requires PhdrAt(img, at, i).Load() && PhdrAt(img, at, i).FirstPage() + k < PhdrAt(img, at, i).EndPage()
    ensures PhdrAt(img, at, i).FirstPage() + k < PAGES
    ensures !UserLeaf(Entry(mem, r, PathOf(PhdrAt(img, at, i).FirstPage() + k)))
  {
    hide V, Leaf, U, PathOf, PhdrAt, PhdrCount, MakePte, SegLoaded;
    ZeroIsInvalid();
    var page := PhdrAt(img, at, i).FirstPage() + k;
    assert !Covered(img, at, i, page);
    assert KernelFlags(lay, page) == 0;
  }

  /** One more page of segment `i`. */
  lemma ProgressPage(mem: Mem, owner: Owners, mem': Mem, owner': Owners, lay: Layout, r: nat, img: seq<byte>, at: nat,
                     i: nat, k: nat)
    requires GoodImage(img, at) && i < PhdrCount(img, at) && Progress(mem, lay, r, img, at, i, k)
    requires PhdrAt(img, at, i).Load() && PhdrAt(img, at, i).FirstPage() + k < PhdrAt(img, at, i).EndPage() <= PAGES
    requires Forest(mem, owner) && IsRoot(owner, r) && TreeGrowth(mem, owner, mem', owner', r)
    requires SameLeavesBut(mem, mem', owner, r, PathOf(PhdrAt(img, at, i).FirstPage() + k))
    requires UserFlags(PhdrAt(img, at, i).PteFlags())
    requires PageHolds(mem', r, PathOf(PhdrAt(img, at, i).FirstPage() + k), SegPage(img, at, PhdrAt(img, at, i), k),
                       PhdrAt(img, at, i).PteFlags())
    ensures Progress(mem', lay, r, img, at, i, k + 1)
  {
    hide PathOf, PageHolds, Forest, TreeGrowth, SegPage, KernelPte, PhdrAt, PhdrCount, SegLoaded, UserFlags;
    var ph := PhdrAt(img, at, i);
    var page := ph.FirstPage() + k;
    forall j {:trigger PhdrAt(img, at, j)} | 0 <= j < i && PhdrAt(img, at, j).Load()
      ensures SegLoaded(mem', r, img, at, PhdrAt(img, at, j),
                        PhdrAt(img, at, j).EndPage() - PhdrAt(img, at, j).FirstPage())
    {
      SegStays(mem, owner, mem', owner', r, img, at, PhdrAt(img, at, j),
               PhdrAt(img, at, j).EndPage() - PhdrAt(img, at, j).FirstPage(), page);
    }
    if k > 0 { SegStays(mem, owner, mem', owner', r, img, at, ph, k, page); }
    SegOneMore(mem', r, img, at, ph, k);
    forall p {:trigger PathOf(p)} | 0 <= p < PAGES
      ensures Covered(img, at, i, p) || ph.FirstPage() <= p < ph.FirstPage() + k + 1 ||
        Entry(mem', r, PathOf(p)) == KernelPte(lay, p)
    {
      if p != page { assert PathOf(p) != PathOf(page); }
    }
  }

  lemma SegStays(mem: Mem, owner: Owners, mem': Mem, owner': Owners, r: nat, img: seq<byte>, at: nat, ph: Phdr, n: nat,
                 page: nat)
    requires Forest(mem, owner) && IsRoot(owner, r) && TreeGrowth(mem, owner, mem', owner', r)
    requires page < PAGES && SameLeavesBut(mem, mem', owner, r, PathOf(page))
    requires SegLoaded(mem, r, img, at, ph, n) && !(ph.FirstPage() <= page < ph.FirstPage() + n)
    ensures SegLoaded(mem', r, img, at, ph, n)
  {
    hide PathOf, PageHolds, Forest, TreeGrowth, SegPage;
    forall k {:trigger SegPage(img, at, ph, k)} | 0 <= k < n
      ensures PageHolds(mem', r, PathOf(ph.FirstPage() + k), SegPage(img, at, ph, k), ph.PteFlags())
    {
      assert PathOf(ph.FirstPage() + k) != PathOf(page);
      HoldsStays(mem, owner, mem', owner', r, PathOf(ph.FirstPage() + k), SegPage(img, at, ph, k), ph.PteFlags());
    }
  }

  lemma SegOneMore(mem: Mem, r: nat, img: seq<byte>, at: nat, ph: Phdr, k: nat)
    requires k > 0 ==> SegLoaded(mem, r, img, at, ph, k)
    requires ph.FirstPage() + k < PAGES && ph.PteFlags() < 1024
    requires PageHolds(mem, r, PathOf(ph.FirstPage() + k), SegPage(img, at, ph, k), ph.PteFlags())
    ensures SegLoaded(mem, r, img, at, ph, k + 1)
  {
    hide PathOf, PageHolds, SegPage;
  }

  /** All pages of segment `i` done: on to the next. */
  lemma ProgressSegment(mem: Mem, lay: Layout, r: nat, img: seq<byte>, at: nat, i: nat, k: nat)
    requires i < PhdrCount(img, at) && Progress(mem, lay, r, img, at, i, k)
    requires if PhdrAt(img, at, i).Load() then
               k == PhdrAt(img, at, i).EndPage() - PhdrAt(img, at, i).FirstPage() && PhdrAt(img, at, i).Good()
             else k == 0
    ensures Progress(mem, lay, r, img, at, i + 1, 0)
  {
    hide PathOf, PageHolds, SegPage, KernelPte, PhdrAt, PhdrCount;
    var ph := PhdrAt(img, at, i);
    if ph.Load() && k == 0 { assert SegLoaded(mem, r, img, at, ph, 0); }
    forall p {:trigger PathOf(p)} | 0 <= p < PAGES
      ensures Covered(img, at, i + 1, p) || Entry(mem, r, PathOf(p)) == KernelPte(lay, p)
    {
    }
  }

  /** One turn of the inner loop: a page of segment `i`. */
  method LoadPage(vm: AddressSpaces, lay: Layout, root: nat, img: seq<byte>, at: nat, i: nat,
                  currentOffset: nat) returns (rc: MapResult)
    requires vm.Valid() && IsRoot(vm.owner, root) && lay.Valid() && GoodImage(img, at)
    requires i < PhdrCount(img, at) && PhdrAt(img, at, i).Load() && PhdrAt(img, at, i).Good()
    requires currentOffset % PAGE_SIZE == 0 && currentOffset < PhdrAt(img, at, i).memsz
    requires Progress(vm.mem, lay, root, img, at, i, currentOffset / PAGE_SIZE)
    modifies vm`mem, vm`owner, vm.pmm.bitmap
    ensures vm.Valid() && IsRoot(vm.owner, root) && TreeGrowth(old(vm.mem), old(vm.owner), vm.mem, vm.owner, root)
    ensures rc == Done ==> Progress(vm.mem, lay, root, img, at, i, currentOffset / PAGE_SIZE + 1)
    ensures var page := PhdrAt(img, at, i).FirstPage() + currentOffset / PAGE_SIZE;
      && page < PAGES
      && if rc == Done then Spent(old(vm.owner), vm.owner, root, Prefixes(PathOf(page)), 1)
         else Short(old(vm.owner), root, Prefixes(PathOf(page)), 1)
  {
    hide V, Leaf, R, W, X, U, Target, Forest, PathOf, KernelPte, Progress, PhdrAt, PhdrCount, SegPage, UserFlags,
         UserLeaf, PageHolds, GoodImage, SameLeavesBut, TreeGrowth, Spent, Short, Prefixes, SameLeaves, NoFree;
    var ph := PhdrAt(img, at, i);
    ghost var k, mem1, owner1 := currentOffset / PAGE_SIZE, vm.mem, vm.owner;
    var content := PageContent(img, at, ph, currentOffset);
    var flags := SegmentFlags(ph);
    SegmentSpan(ph, currentOffset);
    FlagsAreGood(ph);
    hide Phdr.Good, Phdr.PteFlags, Phdr.FirstPage, Phdr.EndPage;
    UnclaimedPage(vm.mem, lay, root, img, at, i, k);
    VpnIsPath(ph.vaddr + currentOffset);
    rc := vm.MapNewPage(root, ph.vaddr + currentOffset, content, flags);
    if rc == Done { ProgressPage(mem1, owner1, vm.mem, vm.owner, lay, root, img, at, i, k); }
  }

  /** The inner loop: one PT_LOAD segment, page by page. */
  method LoadSegment(vm: AddressSpaces, lay: Layout, root: nat, img: seq<byte>, at: nat, i: nat) returns (rc: MapResult)
    requires vm.Valid() && IsRoot(vm.owner, root) && lay.Valid() && GoodImage(img, at)
    requires i < PhdrCount(img, at) && PhdrAt(img, at, i).Load() && Progress(vm.mem, lay, root, img, at, i, 0)
    modifies vm`mem, vm`owner, vm.pmm.bitmap
    ensures vm.Valid() && IsRoot(vm.owner, root) && TreeGrowth(old(vm.mem), old(vm.owner), vm.mem, vm.owner, root)
    ensures rc == Done ==> Progress(vm.mem, lay, root, img, at, i + 1, 0)
    ensures var (lo, hi) := (PhdrAt(img, at, i).FirstPage(), PhdrAt(img, at, i).EndPage());
      && lo <= hi <= PAGES
      && if rc == Done then Spent(old(vm.owner), vm.owner, root, RangeTables(lo, hi), hi - lo)
         else Short(old(vm.owner), root, RangeTables(lo, hi), hi - lo)
  {
    hide V, Leaf, R, W, X, U, Target, Forest, PathOf, KernelPte, Progress, PhdrAt, PhdrCount, SegPage, TreeGrowth,
         Spent, Short, RangeTables, Prefixes, UserFlags;
    GrowthRefl(vm.mem, vm.owner, root);
    var ph := PhdrAt(img, at, i);
    PagesOfSegment(vm.owner, root, ph);
    var currentOffset := 0;
    while currentOffset < ph.memsz
      invariant currentOffset % PAGE_SIZE == 0 && currentOffset / PAGE_SIZE <= ph.EndPage() - ph.FirstPage()
      invariant vm.Valid() && IsRoot(vm.owner, root)
      invariant TreeGrowth(old(vm.mem), old(vm.owner), vm.mem, vm.owner, root)
      invariant Progress(vm.mem, lay, root, img, at, i, currentOffset / PAGE_SIZE)
      invariant Spent(old(vm.owner), vm.owner, root,
                      RangeTables(ph.FirstPage(), ph.FirstPage() + currentOffset / PAGE_SIZE),
                      currentOffset / PAGE_SIZE)
    {
      ghost var mem1, owner1 := vm.mem, vm.owner;
      rc := LoadPage(vm, lay, root, img, at, i, currentOffset);
      NextPage(old(vm.owner), owner1, vm.owner, root, ph.FirstPage(), ph.FirstPage() + currentOffset / PAGE_SIZE,
               ph.EndPage(), true);
      GrowthStep(old(vm.mem), old(vm.owner), mem1, owner1, vm.mem, vm.owner, root);
      if rc != Done { return; }
      currentOffset := currentOffset + PAGE_SIZE;
    }
    ProgressSegment(vm.mem, lay, root, img, at, i, currentOffset / PAGE_SIZE);
    rc := Done;
  }

  lemma FlagsAreGood(ph: Phdr)
    requires ph.Good()
    ensures UserFlags(ph.PteFlags()) && ph.EndPage() <= PAGES
  {
    hide UserFlags;
  }

  lemma PagesOfSegment(owner: Owners, r: nat, ph: Phdr)
    requires ph.Good()
    ensures ph.FirstPage() <= ph.EndPage() <= PAGES
    ensures Spent(owner, owner, r, RangeTables(ph.FirstPage(), ph.FirstPage()), 0)
  {
    hide Spent, UserFlags;
    SpentNothing(owner, r);
  }

  /** The memset and memcpy of one page: as much of the file as falls in it, zeros after. */
  method PageContent(img: seq<byte>, at: nat, ph: Phdr, currentOffset: nat) returns (page: Frame)
    requires currentOffset % PAGE_SIZE == 0
    ensures page == SegPage(img, at, ph, currentOffset / PAGE_SIZE)
  {
    assert currentOffset / PAGE_SIZE * PAGE_SIZE == currentOffset;
    page := ZeroPage();
    var copySize := PAGE_SIZE;
    if currentOffset + PAGE_SIZE > ph.filesz {
      copySize := if ph.filesz > currentOffset then ph.filesz - currentOffset else 0;
    }
    if copySize > 0 {
      page := Bytes(Slice(img, at + ph.offset + currentOffset, copySize) + page.b[copySize..]);
    }
    forall j: nat | j < PAGE_SIZE
      ensures page.b[j] == SegByte(img, at, ph, currentOffset + j)
    {
      if j < copySize { assert page.b[j] == ByteAt(img, at + ph.offset + currentOffset + j); }
    }
    assert page.b == SegPage(img, at, ph, currentOffset / PAGE_SIZE).b;
  }

  /** The permission bits of the segment, W^X enforced. */
  method SegmentFlags(ph: Phdr) returns (flags: nat)
    ensures flags == ph.PteFlags() && U(flags) && !(W(flags) && X(flags))
    ensures (R(flags) <==> ph.flags / 4 % 2 == 1) && (W(flags) <==> ph.flags / 2 % 2 == 1)
    ensures X(flags) <==> ph.flags % 2 == 1 && ph.flags / 2 % 2 == 0
  {
    flags := PTE_U;
    if ph.flags / 4 % 2 == 1 { flags := flags + PTE_R; }
    if ph.flags / 2 % 2 == 1 { flags := flags + PTE_W; }
    if ph.flags % 2 == 1 { flags := flags + PTE_X; }
    if ph.flags / 2 % 2 == 1 && ph.flags % 2 == 1 { flags := flags - PTE_X; }
  }

  const STACK_PAGE := STACK_TOP / PAGE_SIZE - 1
  const HEAP_MAX := STACK_TOP - 2 * PAGE_SIZE

  /** The owner map with a dropped frame counted as free, for what else an operation did. */
  function Found(owner: Owners, lost: int): Owners
    requires |owner| == TOTAL_PAGES
  {
    if 0 <= lost < TOTAL_PAGES then owner[lost := Free] else owner
  }

  /** A frame that was filled and then could not be mapped is dropped. */
  lemma StackDropped(mem: Mem, owner: Owners, f: nat, content: Frame, mem1: Mem, mem2: Mem, owner2: Owners, root: nat)
    requires Forest(mem, owner) && IsRoot(owner, root) && f < TOTAL_PAGES && owner[f] == Free
    requires mem1 == mem[f := content]
    requires Forest(mem2, owner2) && SameLeaves(mem1, mem2, owner[f := InFlight])
    requires TreeGrowth(mem1, owner[f := InFlight], mem2, owner2, root)
    ensures owner2[f] == InFlight && Forest(mem2, owner2[f := Lost]) && IsRoot(owner2[f := Lost], root)
    ensures TreeGrowth(mem, owner, mem2, Found(owner2[f := Lost], f), root) && SameLeaves(mem, mem2, owner)
  {
    hide NodeOk, SameLeaves, TreeGrowth;
    RoleStays(mem1, owner[f := InFlight], mem2, owner2, root, f);
    NewPageFailed(mem, owner, f, content, mem1, mem2, owner2, root);
    RoleOutside(mem2, owner2, f, Lost);
    assert Found(owner2[f := Lost], f) == owner2[f := Free];
    RootStays(mem, owner, mem2, owner2[f := Free], root);
  }

  lemma StillNoFree(owner: Owners, f: nat)
    requires f < |owner| && NoFree(owner)
    ensures NoFree(owner[f := Lost])
  {
  }

  lemma UserReadWrite()
    ensures UserFlags(PTE_U + PTE_R + PTE_W)
  {
  }

  /**
    The user stack page. Without a frame for it the load fails; without frames for the tables
    missing on the way to it the mapping's result is ignored and the frame, named by `lost`, is
    dropped. Which of these happens depends only on how many frames are free.
   */
  method MapStack(vm: AddressSpaces, lay: Layout, root: nat) returns (ok: bool, ghost lost: int)
    requires vm.Valid() && IsRoot(vm.owner, root) && !UserLeaf(Entry(vm.mem, root, PathOf(STACK_PAGE)))
    modifies vm`mem, vm`owner, vm.pmm.bitmap
    ensures vm.Valid() && IsRoot(vm.owner, root) && -1 <= lost < TOTAL_PAGES
    ensures lost != -1 ==> ok && vm.owner[lost] == Lost && old(vm.owner)[lost] == Free
    ensures ok <==> !NoFree(old(vm.owner))
    ensures ok ==> (lost == -1 <==> !Short(old(vm.owner), root, Prefixes(PathOf(STACK_PAGE)), 1))
    ensures ok && lost == -1 ==> Spent(old(vm.owner), vm.owner, root, Prefixes(PathOf(STACK_PAGE)), 1)
    ensures lost != -1 ==> NoFree(vm.owner)
    ensures TreeGrowth(old(vm.mem), old(vm.owner), vm.mem, Found(vm.owner, lost), root)
    ensures ok && lost == -1 ==> PageHolds(vm.mem, root, PathOf(STACK_PAGE), ZeroPage(), PTE_U + PTE_R + PTE_W)
    ensures if ok && lost == -1 then SameLeavesBut(old(vm.mem), vm.mem, old(vm.owner), root, PathOf(STACK_PAGE))
            else SameLeaves(old(vm.mem), vm.mem, old(vm.owner))
  {
    hide V, Leaf, Target, EntriesOk, EntryOk, NodeOk, MakePte, Forest, UserLeaf, PathOf, R, W, X, U, UserFlags,
         ZeroPage, PageHolds, NoFree, NewLeafOk, Spent, Short, Prefixes, SameLeavesBut, SameLeaves, TreeGrowth, Entry,
         FrameIndex, FrameAddr;
    var va := STACK_TOP - PAGE_SIZE;
    VpnIsPath(va);
    UserReadWrite();
    lost := -1;
    GrowthRefl(vm.mem, vm.owner, root);
    var stackPage := vm.AllocPage();
    if stackPage == 0 { return false, -1; }
    var f := FrameIndex(stackPage);
    SomeFree(old(vm.owner), f);
    NewOther(old(vm.owner), f, InFlight, root);
    NonTableWrite(vm.mem, vm.owner, f, ZeroPage());
    SameTranslation(old(vm.mem), old(vm.owner), f, ZeroPage(), root, VpnPath(va));
    vm.mem := vm.mem[f := ZeroPage()];
    ghost var mem1, owner1 := vm.mem, vm.owner;
    UserNewLeaf(vm.mem, vm.owner, va, f, PTE_U + PTE_R + PTE_W);
    var rc := vm.MapPage(root, va, stackPage, PTE_U + PTE_R + PTE_W);
    PageAndTables(old(vm.owner), owner1, vm.owner, root, VpnPath(va));
    if rc == 0 {
      NewPageMapped(old(vm.mem), old(vm.owner), f, ZeroPage(), mem1, vm.mem, vm.owner, root, va, PTE_U + PTE_R + PTE_W);
      SpentIsNotShort(old(vm.owner), vm.owner, root, Prefixes(PathOf(STACK_PAGE)), 1);
      RootStays(old(vm.mem), old(vm.owner), vm.mem, vm.owner, root);
    } else {
      StackDropped(old(vm.mem), old(vm.owner), f, ZeroPage(), mem1, vm.mem, vm.owner, root);
      StillNoFree(vm.owner, f);
      vm.owner := vm.owner[f := Lost];
      lost := f;
    }
    ok := true;
  }

  /** The whole program as its headers describe it, and otherwise only what the kernel maps. */
  ghost predicate ImageIn(mem: Mem, lay: Layout, r: nat, img: seq<byte>, at: nat) {
    && (forall j {:trigger PhdrAt(img, at, j)} | 0 <= j < PhdrCount(img, at) && PhdrAt(img, at, j).Load() ::
          SegLoaded(mem, r, img, at, PhdrAt(img, at, j), PhdrAt(img, at, j).EndPage() - PhdrAt(img, at, j).FirstPage()))
    && forall page {:trigger PathOf(page)} | 0 <= page < PAGES && page != STACK_PAGE ::
         Covered(img, at, PhdrCount(img, at), page) || Entry(mem, r, PathOf(page)) == KernelPte(lay, page)
  }

  /** A loaded program: its image, its stack page unless that was lost, and the registers and heap bounds of the PCB. */
  ghost predicate ProgramIn(mem: Mem, lay: Layout, r: nat, img: seq<byte>, at: nat, res: Loaded, lost: int)
    requires res.Running?
  {
    && Magic(img, at) == ELF_NUM && ImageIn(mem, lay, r, img, at)
    && res.sepc == EntryPoint(img, at) && res.sp == STACK_TOP
    && res.heapBreak == PageCeil(MaxEnd(img, at, PhdrCount(img, at))) * PAGE_SIZE && res.heapMax == HEAP_MAX
    && if lost == -1 then PageHolds(mem, r, PathOf(STACK_PAGE), ZeroPage(), PTE_U + PTE_R + PTE_W)
       else Entry(mem, r, PathOf(STACK_PAGE)) == 0
  }

  /**
    load_elf into a fresh address space. `Refused` is its -1 (bad magic, no table for a page, no
    frame for the stack), `Panic` its endless loop for want of a frame. An ELF file is loaded exactly
    when there are free frames for its pages, the tables missing for them and the stack page, and
    then the stack page is mapped exactly when there are some for its tables too.
   */
  method LoadElf(vm: AddressSpaces, lay: Layout, root: nat, img: seq<byte>,
                 at: nat) returns (res: Loaded, ghost lost: int)
    requires vm.Valid() && IsRoot(vm.owner, root) && lay.Valid() && KernelOnly(vm.mem, lay, root)
    requires Magic(img, at) == ELF_NUM ==> GoodImage(img, at)
    modifies vm`mem, vm`owner, vm.pmm.bitmap
    ensures vm.Valid() && IsRoot(vm.owner, root) && -1 <= lost < TOTAL_PAGES
    ensures res.Running? <==> Magic(img, at) == ELF_NUM && !NoStackFrame(old(vm.owner), root, img, at)
    ensures res.Running? ==> (lost == -1 <==> !NoStackTables(old(vm.owner), root, img, at))
    ensures res.Running? ==>
      if lost == -1 then ProgramSpent(old(vm.owner), vm.owner, root, img, at) else NoFree(vm.owner)
    ensures lost != -1 ==> res.Running? && vm.owner[lost] == Lost && old(vm.owner)[lost] == Free
    ensures TreeGrowth(old(vm.mem), old(vm.owner), vm.mem, Found(vm.owner, lost), root)
    ensures res.Running? ==> ProgramIn(vm.mem, lay, root, img, at, res, lost)
  {
    hide ProgramSpent, V, Leaf, R, W, X, U, Target, Forest, PathOf, KernelPte, PhdrAt, PhdrCount, EntryPoint,
         TreeGrowth, UserLeaf, Progress, ImageIn, Magic, MaxEnd, PageHolds, ZeroPage, GoodImage, KernelOnly, Spent,
         Short, NoFree, Prefixes, ImageTables, ImagePages, ProgramIn;
    GrowthRefl(vm.mem, vm.owner, root);
    lost := -1;
    if Magic(img, at) != ELF_NUM { return Refused, -1; }
    var rc, maxEnd := LoadSegments(vm, lay, root, img, at);
    ghost var mem1, owner1 := vm.mem, vm.owner;
    AfterSegments(old(vm.owner), owner1, root, img, at);
    if rc == NoPage { return Panic, -1; }
    if rc == NoTable { return Refused, -1; }
    res, lost := FinishLoad(vm, lay, root, img, at, maxEnd);
    StackSpentToo(old(vm.owner), owner1, vm.owner, root, img, at);
    GrowthStep(old(vm.mem), old(vm.owner), mem1, owner1, vm.mem, Found(vm.owner, lost), root);
    if lost != -1 { FreeBefore(old(vm.mem), old(vm.owner), mem1, owner1, root, lost); }
  }

  /** There are too few free frames for the image's pages, the tables missing for them, and the stack page. */
  ghost predicate NoStackFrame(owner: Owners, r: nat, img: seq<byte>, at: nat) {
    Short(owner, r, ImageTables(img, at, PhdrCount(img, at)), ImagePages(img, at, PhdrCount(img, at)) + 1)
  }

  /** There are too few for those and the tables missing for the stack page. */
  ghost predicate NoStackTables(owner: Owners, r: nat, img: seq<byte>, at: nat) {
    Short(owner, r, ImageTables(img, at, PhdrCount(img, at)) + Prefixes(PathOf(STACK_PAGE)),
          ImagePages(img, at, PhdrCount(img, at)) + 1)
  }

  /** The frames of the program, its stack page and all their tables were spent. */
  ghost predicate ProgramSpent(owner: Owners, owner': Owners, r: nat, img: seq<byte>, at: nat) {
    Spent(owner, owner', r, ImageTables(img, at, PhdrCount(img, at)) + Prefixes(PathOf(STACK_PAGE)),
          ImagePages(img, at, PhdrCount(img, at)) + 1)
  }

  lemma StackSpentToo(owner: Owners, owner1: Owners, owner2: Owners, r: nat, img: seq<byte>, at: nat)
    requires Spent(owner, owner1, r, ImageTables(img, at, PhdrCount(img, at)), ImagePages(img, at, PhdrCount(img, at)))
    ensures Spent(owner1, owner2, r, Prefixes(PathOf(STACK_PAGE)), 1) ==> ProgramSpent(owner, owner2, r, img, at)
  {
    hide Spent, ImageTables, ImagePages, Prefixes, PathOf, PhdrCount;
    if Spent(owner1, owner2, r, Prefixes(PathOf(STACK_PAGE)), 1) {
      SpentThen(owner, owner1, owner2, r, ImageTables(img, at, PhdrCount(img, at)),
                ImagePages(img, at, PhdrCount(img, at)), Prefixes(PathOf(STACK_PAGE)), 1);
    }
  }

  /** What the frames left after the segments say about the frames there were before. */
  lemma AfterSegments(owner: Owners, owner1: Owners, r: nat, img: seq<byte>, at: nat)
    ensures var (tables, pages) := (ImageTables(img, at, PhdrCount(img, at)), ImagePages(img, at, PhdrCount(img, at)));
      && (Spent(owner, owner1, r, tables, pages) ==>
            && (NoFree(owner1) <==> NoStackFrame(owner, r, img, at))
            && (Short(owner1, r, Prefixes(PathOf(STACK_PAGE)), 1) <==> NoStackTables(owner, r, img, at)))
      && (Short(owner, r, tables, pages) ==> NoStackFrame(owner, r, img, at))
  {
    hide Spent, Short, NoFree, ImageTables, ImagePages, Prefixes, PathOf, PhdrCount;
    var (tables, pages) := (ImageTables(img, at, PhdrCount(img, at)), ImagePages(img, at, PhdrCount(img, at)));
    if Spent(owner, owner1, r, tables, pages) {
      SpentAll(owner, owner1, r, tables, pages);
      SpentThenShort(owner, owner1, r, tables, pages, Prefixes(PathOf(STACK_PAGE)), 1);
    }
    if Short(owner, r, tables, pages) { ShortOfMore(owner, r, tables, pages, tables, pages + 1); }
  }

  /**
    The frames a program needs below its stack page's table, in a space that has the kernel's tables
    and no others: its pages, the tables they miss, and the stack page.
   */
  function ProgramFrames(lay: Layout, img: seq<byte>, at: nat): nat {
    var n := PhdrCount(img, at);
    ImagePages(img, at, n) + |ImageTables(img, at, n) - KernelTables(lay)| + 1
  }

  /** The stack page always misses one more table: no segment and no part of the kernel map is in its two megabytes. */
  lemma ProgramNeeds(owner: Owners, owner': Owners, r: nat, lay: Layout, img: seq<byte>, at: nat)
    requires lay.Valid() && GoodImage(img, at) && Tables(owner, r) == KernelTables(lay)
    ensures NoStackFrame(owner, r, img, at) <==> |FreeFrames(owner)| < ProgramFrames(lay, img, at)
    ensures NoStackTables(owner, r, img, at) <==> |FreeFrames(owner)| <= ProgramFrames(lay, img, at)
    ensures ProgramSpent(owner, owner', r, img, at) ==>
      |FreeFrames(owner)| == |FreeFrames(owner')| + ProgramFrames(lay, img, at) + 1
  {
    hide Tables, FreeFrames, KernelTables, ImageTables, ImagePages, PhdrCount, PathOf, GoodImage;
    var (tables, kernel, stack) := (ImageTables(img, at, PhdrCount(img, at)), KernelTables(lay), PathOf(STACK_PAGE));
    StackPath();
    KernelHasNoStackTable(lay);
    ImageHasNoStackTable(img, at, PhdrCount(img, at));
    assert (tables + Prefixes(stack)) - kernel == (tables - kernel) + {stack.up};
    UnionSize(tables - kernel, {stack.up});
  }

  /** Where the stack page hangs, and which pages share its last-level table. */
  lemma StackPath()
    ensures PathOf(STACK_PAGE).up == Step(Step(Top, 0), 511) && PathOf(STACK_PAGE).up.up == Step(Top, 0)
    ensures forall page {:trigger PathOf(page)} |
              0 <= page < PAGES && PathOf(STACK_PAGE).up in Prefixes(PathOf(page)) ::
      511 * ENTRIES <= page < ENTRIES * ENTRIES
  {
  }

  lemma KernelHasNoStackTable(lay: Layout)
    requires lay.Valid()
    ensures PathOf(STACK_PAGE).up !in KernelTables(lay) && PathOf(STACK_PAGE).up.up in KernelTables(lay)
  {
    hide PathOf, Prefixes, RangeTables, RangesTables;
    StackPath();
    var p := PathOf(STACK_PAGE).up;
    InRanges(lay, 6, p);
    forall k: nat | k < 6
      ensures KernelRange(lay, k).1 <= PAGES && p !in RangeTables(KernelRange(lay, k).0, KernelRange(lay, k).1)
    {
      InRange(KernelRange(lay, k).0, KernelRange(lay, k).1, p);
    }
    UartTable(lay);
  }

  /** The UART's page needs the upper one of the stack page's tables. */
  lemma UartTable(lay: Layout)
    ensures Step(Top, 0) in KernelTables(lay)
  {
    var uart := UART0_BASE / PAGE_SIZE;
    hide RangesTables, RangeTables;
    assert KernelRange(lay, 4) == (uart, uart + 1);
    assert Step(Top, 0) in Prefixes(PathOf(uart));
    InRange(uart, uart + 1, Step(Top, 0));
    InRanges(lay, 6, Step(Top, 0));
  }

  lemma {:induction false} ImageHasNoStackTable(img: seq<byte>, at: nat, n: nat)
    requires GoodImage(img, at) && n <= PhdrCount(img, at)
    ensures PathOf(STACK_PAGE).up !in ImageTables(img, at, n)
  {
    hide PathOf, Prefixes, RangeTables, PhdrAt, PhdrCount, UserFlags;
    if n > 0 {
      ImageHasNoStackTable(img, at, n - 1);
      var ph := PhdrAt(img, at, n - 1);
      StackPath();
      if ph.Load() { InRange(ph.FirstPage(), ph.EndPage(), PathOf(STACK_PAGE).up); }
    }
  }

  /** The rest of load_elf once the segments are in: entry point, stack, heap bounds. */
  method FinishLoad(vm: AddressSpaces, lay: Layout, root: nat, img: seq<byte>, at: nat,
                    maxEnd: nat) returns (res: Loaded, ghost lost: int)
    requires vm.Valid() && IsRoot(vm.owner, root) && lay.Valid()
    requires Magic(img, at) == ELF_NUM && GoodImage(img, at)
    requires Progress(vm.mem, lay, root, img, at, PhdrCount(img, at), 0)
    requires maxEnd == MaxEnd(img, at, PhdrCount(img, at))
    modifies vm`mem, vm`owner, vm.pmm.bitmap
    ensures vm.Valid() && IsRoot(vm.owner, root) && -1 <= lost < TOTAL_PAGES && res != Panic
    ensures res.Running? <==> !NoFree(old(vm.owner))
    ensures res.Running? ==> (lost == -1 <==> !Short(old(vm.owner), root, Prefixes(PathOf(STACK_PAGE)), 1))
    ensures res.Running? ==>
      if lost == -1 then Spent(old(vm.owner), vm.owner, root, Prefixes(PathOf(STACK_PAGE)), 1) else NoFree(vm.owner)
    ensures lost != -1 ==> res.Running? && vm.owner[lost] == Lost && old(vm.owner)[lost] == Free
    ensures TreeGrowth(old(vm.mem), old(vm.owner), vm.mem, Found(vm.owner, lost), root)
    ensures res.Running? ==> ProgramIn(vm.mem, lay, root, img, at, res, lost)
  {
    hide V, Leaf, R, W, X, U, Target, Forest, PathOf, KernelPte, PhdrAt, PhdrCount, EntryPoint, TreeGrowth, UserLeaf,
         Progress, ImageIn, Magic, MaxEnd, PageHolds, ZeroPage, GoodImage, PageCeil, Found;
    StackUnclaimed(vm.mem, lay, root, img, at);
    var ok;
    ok, lost := MapStack(vm, lay, root);
    if !ok { return Refused, -1; }
    StackKeepsImage(old(vm.mem), old(vm.owner), vm.mem, Found(vm.owner, lost), lay, root, img, at);
    res := Running(EntryPoint(img, at), STACK_TOP, PageCeil(maxEnd) * PAGE_SIZE, HEAP_MAX);
  }

  lemma NothingLoaded(mem: Mem, owner: Owners, lay: Layout, r: nat, img: seq<byte>, at: nat)
    requires KernelOnly(mem, lay, r)
    ensures Progress(mem, lay, r, img, at, 0, 0)
    ensures Spent(owner, owner, r, ImageTables(img, at, 0), ImagePages(img, at, 0))
  {
    hide Spent, PathOf, KernelPte;
    SpentNothing(owner, r);
  }

  /** The outer loop: every PT_LOAD segment, and the highest end of them. */
  method LoadSegments(vm: AddressSpaces, lay: Layout, root: nat, img: seq<byte>,
                      at: nat) returns (rc: MapResult, maxEnd: nat)
    requires vm.Valid() && IsRoot(vm.owner, root) && lay.Valid() && KernelOnly(vm.mem, lay, root) && GoodImage(img, at)
    modifies vm`mem, vm`owner, vm.pmm.bitmap
    ensures vm.Valid() && IsRoot(vm.owner, root) && TreeGrowth(old(vm.mem), old(vm.owner), vm.mem, vm.owner, root)
    ensures rc == Done ==>
      Progress(vm.mem, lay, root, img, at, PhdrCount(img, at), 0) && maxEnd == MaxEnd(img, at, PhdrCount(img, at))
    ensures var n := PhdrCount(img, at);
      if rc == Done then Spent(old(vm.owner), vm.owner, root, ImageTables(img, at, n), ImagePages(img, at, n))
      else Short(old(vm.owner), root, ImageTables(img, at, n), ImagePages(img, at, n))
  {
    hide V, Leaf, R, W, X, U, Target, Forest, PathOf, KernelPte, PhdrAt, PhdrCount, TreeGrowth, UserLeaf, GoodImage,
         Spent, Short, RangeTables, Prefixes, Progress;
    GrowthRefl(vm.mem, vm.owner, root);
    NothingLoaded(vm.mem, vm.owner, lay, root, img, at);
    maxEnd := 0;
    var i := 0;
    while i < PhdrCount(img, at)
      invariant 0 <= i <= PhdrCount(img, at) && vm.Valid() && IsRoot(vm.owner, root)
      invariant TreeGrowth(old(vm.mem), old(vm.owner), vm.mem, vm.owner, root)
      invariant Progress(vm.mem, lay, root, img, at, i, 0) && maxEnd == MaxEnd(img, at, i)
      invariant Spent(old(vm.owner), vm.owner, root, ImageTables(img, at, i), ImagePages(img, at, i))
    {
      if PhdrAt(img, at, i).ptype == PT_LOAD {
        ghost var mem1, owner1 := vm.mem, vm.owner;
        rc := LoadSegment(vm, lay, root, img, at, i);
        NextSegment(old(vm.owner), owner1, vm.owner, root, img, at, i, PhdrCount(img, at));
        GrowthStep(old(vm.mem), old(vm.owner), mem1, owner1, vm.mem, vm.owner, root);
        if rc != Done { return; }
        var segmentEnd := PhdrAt(img, at, i).vaddr + PhdrAt(img, at, i).memsz;
        if segmentEnd > maxEnd { maxEnd := segmentEnd; }
      } else {
        ProgressSegment(vm.mem, lay, root, img, at, i, 0);
        assert ImageTables(img, at, i + 1) == ImageTables(img, at, i);
      }
      i := i + 1;
    }
    rc := Done;
  }

  lemma FreeBefore(mem: Mem, owner: Owners, mem': Mem, owner': Owners, r: nat, f: nat)
    requires TreeGrowth(mem, owner, mem', owner', r) && f < TOTAL_PAGES && owner'[f] == Free
    ensures owner[f] == Free
  {
  }

  /** Segments end below the image limit, and so below the stack. */
  lemma CoveredIsLow(img: seq<byte>, at: nat, n: nat, page: nat)
    requires GoodImage(img, at) && n <= PhdrCount(img, at) && Covered(img, at, n, page)
    ensures page < IMAGE_LIMIT / PAGE_SIZE
  {
    hide PhdrAt, PhdrCount, UserFlags;
  }

  lemma StackUnclaimed(mem: Mem, lay: Layout, r: nat, img: seq<byte>, at: nat)
    requires lay.Valid() && GoodImage(img, at) && Progress(mem, lay, r, img, at, PhdrCount(img, at), 0)
    ensures Entry(mem, r, PathOf(STACK_PAGE)) == 0 && !UserLeaf(Entry(mem, r, PathOf(STACK_PAGE)))
  {
    hide PhdrAt, PhdrCount, MakePte, PathOf, V, Leaf, U;
    ZeroIsInvalid();
    if Covered(img, at, PhdrCount(img, at), STACK_PAGE) { CoveredIsLow(img, at, PhdrCount(img, at), STACK_PAGE); }
    assert KernelFlags(lay, STACK_PAGE) == 0;
  }

  lemma StackKeepsImage(mem: Mem, owner: Owners, mem': Mem, owner': Owners, lay: Layout, r: nat, img: seq<byte>,
                        at: nat)
    requires Forest(mem, owner) && IsRoot(owner, r) && TreeGrowth(mem, owner, mem', owner', r)
    requires SameLeavesBut(mem, mem', owner, r, PathOf(STACK_PAGE)) || SameLeaves(mem, mem', owner)
    requires GoodImage(img, at) && Progress(mem, lay, r, img, at, PhdrCount(img, at), 0)
    ensures ImageIn(mem', lay, r, img, at)
  {
    hide PathOf, PageHolds, Forest, TreeGrowth, SegPage, KernelPte, PhdrAt, PhdrCount, SegLoaded, UserFlags;
    forall j {:trigger PhdrAt(img, at, j)} | 0 <= j < PhdrCount(img, at) && PhdrAt(img, at, j).Load()
      ensures SegLoaded(mem', r, img, at, PhdrAt(img, at, j),
                        PhdrAt(img, at, j).EndPage() - PhdrAt(img, at, j).FirstPage())
    {
      SegStays(mem, owner, mem', owner', r, img, at, PhdrAt(img, at, j),
               PhdrAt(img, at, j).EndPage() - PhdrAt(img, at, j).FirstPage(), STACK_PAGE);
    }
    forall page {:trigger PathOf(page)} | 0 <= page < PAGES && page != STACK_PAGE
      ensures Covered(img, at, PhdrCount(img, at), page) || Entry(mem', r, PathOf(page)) == KernelPte(lay, page)
    {
      assert PathOf(page) != PathOf(STACK_PAGE);
    }
  }

  // ---- what a loaded program is ----

  /**
    Reading byte `x` of a PT_LOAD segment through the page table gives the file's byte below
    p_filesz and zero from there to p_memsz, on a page with the segment's permissions, never
    both writable and executable; and the break is past the segment.
   */
  lemma LoadedByte(mem: Mem, lay: Layout, r: nat, img: seq<byte>, at: nat, res: Loaded, lost: int, j: nat, x: nat)
    requires res.Running? && ProgramIn(mem, lay, r, img, at, res, lost) && GoodImage(img, at)
    requires j < PhdrCount(img, at) && PhdrAt(img, at, j).Load() && x < PhdrAt(img, at, j).memsz
    ensures var (ph, va) := (PhdrAt(img, at, j), PhdrAt(img, at, j).vaddr + x);
      && LoadByte(mem, r, va) == (if x < ph.filesz then ByteAt(img, at + ph.offset + x) else 0)
      && UserLeaf(Entry(mem, r, VpnPath(va))) && Entry(mem, r, VpnPath(va)) % 1024 == WithV(ph.PteFlags())
      && !(W(ph.PteFlags()) && X(ph.PteFlags()))
      && va < res.heapBreak
  {
    hide PhdrAt, PhdrCount, V, R, W, X, U, Leaf, PathOf, Vpn, LoadByte, SegByte, Magic, EntryPoint, MaxEnd, SegLoaded,
         VpnPath;
    var ph, k := PhdrAt(img, at, j), x / PAGE_SIZE;
    SegmentSpan(ph, x);
    assert PageHolds(mem, r, PathOf(ph.FirstPage() + k), SegPage(img, at, ph, k), ph.PteFlags()) by {
      assert SegLoaded(mem, r, img, at, ph, ph.EndPage() - ph.FirstPage());
      SegLoadedPage(mem, r, img, at, ph, ph.EndPage() - ph.FirstPage(), k);
    }
    PageByte(mem, r, img, at, ph, x);
    ItsByte(img, at, ph, x);
    MaxEndCovers(img, at, PhdrCount(img, at), j);
  }

  lemma ItsByte(img: seq<byte>, at: nat, ph: Phdr, x: nat)
    ensures SegByte(img, at, ph, x) == if x < ph.filesz then ByteAt(img, at + ph.offset + x) else 0
  {
  }

  /**
    What the loaded program may do with a byte of one of its segments, as the hardware sees it: read
    it if p_flags has R, write it if it has W, execute it if it has X and not W.
   */
  lemma LoadedAccess(mem: Mem, owner: Owners, lay: Layout, r: nat, img: seq<byte>, at: nat, res: Loaded, lost: int,
                     j: nat, x: nat)
    requires Forest(mem, owner) && IsRoot(owner, r)
    requires res.Running? && ProgramIn(mem, lay, r, img, at, res, lost) && GoodImage(img, at)
    requires j < PhdrCount(img, at) && PhdrAt(img, at, j).Load() && x < PhdrAt(img, at, j).memsz
    ensures var (flags, va) := (PhdrAt(img, at, j).flags, PhdrAt(img, at, j).vaddr + x);
      && (HwTranslate(mem, r, va, Load, true) != -1 <==> flags / 4 % 2 == 1)
      && (HwTranslate(mem, r, va, Store, true) != -1 <==> flags / 2 % 2 == 1)
      && (HwTranslate(mem, r, va, Fetch, true) != -1 <==> flags % 2 == 1 && flags / 2 % 2 == 0)
  {
    hide ProgramIn, HwTranslate, V, R, W, X, U, Leaf, VpnPath, LoadByte, SegByte, WithV;
    var ph, va := PhdrAt(img, at, j), PhdrAt(img, at, j).vaddr + x;
    LoadedByte(mem, lay, r, img, at, res, lost, j, x);
    assert ph.Good();
    hide PhdrAt, PhdrCount, Forest, GoodImage, Phdr.PteFlags;
    SegmentBits(ph, Entry(mem, r, VpnPath(va)));
    FlagsAreLeaf(ph);
    UserAccess(mem, owner, r, va);
  }

  /** A mapped page of zeros that the program may read and write. */
  lemma ZeroedPage(mem: Mem, owner: Owners, r: nat, va: nat)
    requires Forest(mem, owner) && IsRoot(owner, r) && va < LOW_HALF
    requires PageHolds(mem, r, PathOf(va / PAGE_SIZE), ZeroPage(), PTE_U + PTE_R + PTE_W)
    ensures HwTranslate(mem, r, va, Load, true) != -1 && HwTranslate(mem, r, va, Store, true) != -1
    ensures LoadByte(mem, r, va) == 0
  {
    hide Forest, HwTranslate, PathOf, VpnPath;
    VpnIsPath(va);
    UserAccess(mem, owner, r, va);
    ReadWriteBits(Entry(mem, r, VpnPath(va)));
  }

  lemma ReadWriteBits(w: Word)
    requires w % 1024 == WithV(PTE_U + PTE_R + PTE_W)
    ensures V(w) && U(w) && R(w) && W(w)
  {
    hide V, R, W, X, U;
    LowBits(w / 1024, w % 1024);
    ReadWriteFlags();
  }

  lemma ReadWriteFlags()
    ensures var f := PTE_U + PTE_R + PTE_W; f < 1024 && U(f) && R(f) && W(f)
  {
  }

  /** A program starts with an empty stack: a page of zeros below the stack pointer, unless it was lost. */
  lemma StackAccess(mem: Mem, owner: Owners, lay: Layout, r: nat, img: seq<byte>, at: nat, res: Loaded, va: nat)
    requires Forest(mem, owner) && IsRoot(owner, r) && res.Running? && ProgramIn(mem, lay, r, img, at, res, -1)
    requires 0x3FFF_F000 <= va < 0x4000_0000
    ensures res.sp == 0x4000_0000 && LoadByte(mem, r, va) == 0
    ensures HwTranslate(mem, r, va, Load, true) != -1 && HwTranslate(mem, r, va, Store, true) != -1
  {
    hide Forest, HwTranslate, LoadByte, PathOf, ImageIn, PageHolds, Magic, EntryPoint, MaxEnd;
    assert va / PAGE_SIZE == STACK_PAGE;
    ZeroedPage(mem, owner, r, va);
  }

  lemma FlagsAreLeaf(ph: Phdr)
    requires UserFlags(ph.PteFlags())
    ensures ph.flags / 2 % 2 == 1 ==> ph.flags / 4 % 2 == 1
  {
  }

  lemma SegLoadedPage(mem: Mem, r: nat, img: seq<byte>, at: nat, ph: Phdr, n: nat, k: nat)
    requires SegLoaded(mem, r, img, at, ph, n) && k < n
    ensures PageHolds(mem, r, PathOf(ph.FirstPage() + k), SegPage(img, at, ph, k), ph.PteFlags())
  {
  }

  /** Where byte `x` of a segment is. */
  lemma SegmentSpan(ph: Phdr, x: nat)
    requires ph.Good() && x < ph.memsz
    ensures var va := ph.vaddr + x;
      && va / PAGE_SIZE == ph.FirstPage() + x / PAGE_SIZE && va % PAGE_SIZE == x % PAGE_SIZE
      && x / PAGE_SIZE < ph.EndPage() - ph.FirstPage() && va < PAGES * PAGE_SIZE
  {
    hide UserFlags;
  }

  lemma PageByte(mem: Mem, r: nat, img: seq<byte>, at: nat, ph: Phdr, x: nat)
    requires ph.Good() && x < ph.memsz
    requires ph.FirstPage() + x / PAGE_SIZE < PAGES
    requires PageHolds(mem, r, PathOf(ph.FirstPage() + x / PAGE_SIZE), SegPage(img, at, ph, x / PAGE_SIZE),
                       ph.PteFlags())
    ensures var va := ph.vaddr + x;
      && LoadByte(mem, r, va) == SegByte(img, at, ph, x)
      && UserLeaf(Entry(mem, r, VpnPath(va))) && Entry(mem, r, VpnPath(va)) % 1024 == WithV(ph.PteFlags())
  {
    hide UserFlags, V, R, W, X, U, Leaf, PathOf, Vpn, SegByte, VpnPath, Entry;
    SegmentSpan(ph, x);
    VpnIsPath(ph.vaddr + x);
    assert x / PAGE_SIZE * PAGE_SIZE + x % PAGE_SIZE == x;
  }

  /** The heap begins no higher than it must: MaxEnd is the end of a segment, or 0 without any. */
  lemma {:induction false} MaxEndIsReached(img: seq<byte>, at: nat, n: nat)
    ensures MaxEnd(img, at, n) == 0 || exists i {:trigger PhdrAt(img, at, i)} ::
      && 0 <= i < n && PhdrAt(img, at, i).Load()
      && MaxEnd(img, at, n) == PhdrAt(img, at, i).vaddr + PhdrAt(img, at, i).memsz
  {
    hide PhdrAt;
    if n > 0 { MaxEndIsReached(img, at, n - 1); }
  }

  lemma {:induction false} MaxEndCovers(img: seq<byte>, at: nat, n: nat, j: nat)
    requires j < n && PhdrAt(img, at, j).Load()
    ensures PhdrAt(img, at, j).vaddr + PhdrAt(img, at, j).memsz <= MaxEnd(img, at, n)
  {
    hide PhdrAt;
    if j < n - 1 { MaxEndCovers(img, at, n - 1, j); }
  }

  lemma {:induction false} MaxEndIsLow(img: seq<byte>, at: nat, n: nat)
    requires GoodImage(img, at) && n <= PhdrCount(img, at)
    ensures MaxEnd(img, at, n) <= IMAGE_LIMIT
  {
    hide PhdrAt, PhdrCount, UserFlags;
    if n > 0 {
      MaxEndIsLow(img, at, n - 1);
      var ph := PhdrAt(img, at, n - 1);
      assert ph.Load() ==> ph.Good();
    }
  }
}
