/**
  The Sv39 encodings of kernel/include/vmm.h and the frames of kernel/include/pmm.h.

  The macros are shifts and masks of unsigned 64-bit words. Here they are the divisions and
  remainders by powers of two that those shifts and masks are; `MacrosAreDivMod` proves, on
  64-bit vectors, that the two readings agree.
 */
module Sv39 {
  const PAGE_SIZE := 4096
  const PHYSICAL_RAM_START := 0x8000_0000
  const TOTAL_PAGES := 32768
  const ENTRIES := 512
  const WORD_LIMIT := 0x1_0000_0000_0000_0000

  newtype byte = b: int | 0 <= b < 256
  type Word = w: nat | w < WORD_LIMIT

  const PTE_V := 1
  const PTE_R := 2
  const PTE_W := 4
  const PTE_X := 8
  const PTE_U := 16

  predicate V(w: nat) { w % 2 == 1 }
  predicate R(w: nat) { w / 2 % 2 == 1 }
  predicate W(w: nat) { w / 4 % 2 == 1 }
  predicate X(w: nat) { w / 8 % 2 == 1 }
  predicate U(w: nat) { w / 16 % 2 == 1 }

  /** An entry with any of R, W and X maps a page; one with none of them points to a table. */
  predicate Leaf(w: nat) { R(w) || W(w) || X(w) }

  function PteToPa(w: Word): Word { w / 1024 * 4096 % WORD_LIMIT }

  function PaToPte(pa: Word): Word { pa / 4096 * 1024 }

  /** `PA_TO_PTE(pa) | flags | PTE_V`: the ten low bits of PA_TO_PTE are clear, so OR adds. */
  function MakePte(pa: Word, flags: nat): (w: Word)
    requires flags < 1024
  {
    PaToPte(pa) + WithV(flags)
  }

  function WithV(flags: nat): (r: nat)
    requires flags < 1024
    ensures r < 1024 && V(r) && R(r) == R(flags) && W(r) == W(flags) && X(r) == X(flags) && U(r) == U(flags)
  {
    if V(flags) then flags else flags + PTE_V
  }

  lemma Parity(k: nat, q: nat)
    ensures (2 * k + q) % 2 == q % 2
  {
  }

  lemma LowBits(ppn: nat, low: nat)
    requires low < 1024
    ensures (ppn * 1024 + low) / 1024 == ppn && (ppn * 1024 + low) % 1024 == low
    ensures V(ppn * 1024 + low) == V(low) && R(ppn * 1024 + low) == R(low)
    ensures W(ppn * 1024 + low) == W(low) && X(ppn * 1024 + low) == X(low) && U(ppn * 1024 + low) == U(low)
  {
    assert V(ppn * 1024 + low) == V(low) by { Parity(ppn * 512, low); }
    assert R(ppn * 1024 + low) == R(low) by {
      assert (ppn * 1024 + low) / 2 == 2 * (ppn * 256) + low / 2;
      Parity(ppn * 256, low / 2);
    }
    assert W(ppn * 1024 + low) == W(low) by {
      assert (ppn * 1024 + low) / 4 == 2 * (ppn * 128) + low / 4;
      Parity(ppn * 128, low / 4);
    }
    assert X(ppn * 1024 + low) == X(low) by {
      assert (ppn * 1024 + low) / 8 == 2 * (ppn * 64) + low / 8;
      Parity(ppn * 64, low / 8);
    }
    assert U(ppn * 1024 + low) == U(low) by {
      assert (ppn * 1024 + low) / 16 == 2 * (ppn * 32) + low / 16;
      Parity(ppn * 32, low / 16);
    }
  }

  /** What the fields of a freshly made entry are. */
  lemma PteFields(pa: Word, flags: nat)
    requires flags < 1024
    ensures var w := MakePte(pa, flags);
      && w / 1024 == pa / 4096 && w % 1024 == WithV(flags)
      && V(w) && R(w) == R(flags) && W(w) == W(flags) && X(w) == X(flags) && U(w) == U(flags)
  {
    LowBits(pa / 4096, WithV(flags));
  }

  function Vpn(va: nat, level: nat): (r: nat)
    requires level < 3
    ensures r < ENTRIES
  {
    if level == 0 then va / 0x1000 % 512
    else if level == 1 then va / 0x20_0000 % 512
    else va / 0x4000_0000 % 512
  }

  function MakeSatp(rootPa: Word): nat { 0x8000_0000_0000_0000 + rootPa / 4096 }

  /** The register names Sv39 mode and exactly the root's frame: ORing the mode in is adding it. */
  lemma SatpNamesRoot(f: nat)
    requires f < TOTAL_PAGES
    ensures var satp := MakeSatp(FrameAddr(f));
      satp / 0x1000_0000_0000_0000 == 8 && satp % 0x1000_0000_0000 == PHYSICAL_RAM_START / PAGE_SIZE + f
  {
    assert FrameAddr(f) / 4096 == PHYSICAL_RAM_START / PAGE_SIZE + f;
  }

  lemma MacrosAreDivMod(w: bv64, pa: bv64, flags: bv64, va: bv64)
    requires flags < 1024
    ensures (w >> 10) << 12 == w / 1024 * 4096
    ensures (pa >> 12) << 10 == pa / 4096 * 1024
    ensures ((pa >> 12) << 10) | flags | 1 == pa / 4096 * 1024 + (if flags % 2 == 1 then flags else flags + 1)
    ensures w & 0x3FF == w % 1024
    ensures (va >> 12) & 0x1FF == va / 0x1000 % 512
    ensures (va >> 21) & 0x1FF == va / 0x20_0000 % 512
    ensures (va >> 30) & 0x1FF == va / 0x4000_0000 % 512
    ensures (w & 1 != 0) == (w % 2 == 1) && (w & 2 != 0) == (w / 2 % 2 == 1)
    ensures (w & 4 != 0) == (w / 4 % 2 == 1) && (w & 8 != 0) == (w / 8 % 2 == 1)
    ensures (w & 16 != 0) == (w / 16 % 2 == 1)
  {
  }

  /** The address of physical frame `f`. */
  function FrameAddr(f: nat): (pa: Word)
    requires f < TOTAL_PAGES
  {
    PHYSICAL_RAM_START + PAGE_SIZE * f
  }

  predicate IsFrameAddr(pa: nat)
  {
    PHYSICAL_RAM_START <= pa < PHYSICAL_RAM_START + TOTAL_PAGES * PAGE_SIZE && pa % PAGE_SIZE == 0
  }

  function FrameIndex(pa: nat): (f: nat)
    requires IsFrameAddr(pa)
    ensures f < TOTAL_PAGES && FrameAddr(f) == pa
  {
    (pa - PHYSICAL_RAM_START) / PAGE_SIZE
  }

  lemma AddrIndex(f: nat)
    requires f < TOTAL_PAGES
    ensures IsFrameAddr(FrameAddr(f)) && FrameIndex(FrameAddr(f)) == f
  {
  }

  /** The frame an entry names, counted from the start of RAM; outside 0..TOTAL_PAGES it is not RAM. */
  function Target(w: nat): int { w / 1024 - PHYSICAL_RAM_START / PAGE_SIZE }

  predicate InRam(t: int) { 0 <= t < TOTAL_PAGES }

  /** A pointer to a table in RAM. */
  predicate Points(w: nat) { V(w) && !Leaf(w) && InRam(Target(w)) }

  /** The frame an entry names: the decoder's address, counted in frames. */
  function FrameOf(w: Word): (t: nat)
    requires InRam(Target(w))
    ensures t == Target(w)
  {
    FrameIndex(PteToPa(w))
  }

  /** Round trip of the encode and decode macros. */
  lemma PteRoundTrip(f: nat, flags: nat)
    requires f < TOTAL_PAGES && flags < 1024
    ensures Target(MakePte(FrameAddr(f), flags)) == f
    ensures PteToPa(MakePte(FrameAddr(f), flags)) == FrameAddr(f)
  {
    PteFields(FrameAddr(f), flags);
    assert FrameAddr(f) / 4096 == PHYSICAL_RAM_START / PAGE_SIZE + f;
  }

  // ---- the three-level split of a page number ----

  /** A way down a tree: `Step(up, i)` goes where `up` goes and then through entry `i`. */
  datatype Path = Top | Step(up: Path, i: nat) {
    function Depth(): nat { if Top? then 0 else 1 + up.Depth() }

    predicate Valid() { Step? ==> i < ENTRIES && up.Valid() }

    /** This path is `q` or goes on from where `q` ends. */
    predicate Under(q: Path) { this == q || (Step? && up.Under(q)) }
  }

  /** A path of three valid steps names a page. */
  predicate PagePath(p: Path): (b: bool)
    ensures b <==> p.Depth() == 3 && p.Valid()
  {
    assert p.Step? && p.up.Step? ==>
      p.up.Depth() == 1 + p.up.up.Depth() && (p.up.Valid() <==> p.up.i < ENTRIES && p.up.up.Valid());
    assert p.Step? && p.up.Step? && p.up.up.Step? ==>
      p.up.up.Depth() == 1 + p.up.up.up.Depth() && (p.up.up.Valid() <==> p.up.up.i < ENTRIES && p.up.up.up.Valid());
    p.Step? && p.up.Step? && p.up.up.Step? && p.up.up.up.Top? &&
    p.i < ENTRIES && p.up.i < ENTRIES && p.up.up.i < ENTRIES
  }

  const PAGES := 0x800_0000  // 2^27 pages of virtual address space

  function PathOf(page: nat): (p: Path)
    requires page < PAGES
    ensures PagePath(p) && PageOf(p) == page
  {
    Step(Step(Step(Top, page / 0x4_0000), page / 512 % 512), page % 512)
  }

  function PageOf(p: Path): (page: nat)
    requires PagePath(p)
    ensures page < PAGES
  {
    p.up.up.i * 0x4_0000 + p.up.i * 512 + p.i
  }

  /** The VPN split is injective: the path gives the page back. */
  lemma SplitIsInjective(p: Path)
    requires PagePath(p)
    ensures PathOf(PageOf(p)) == p
  {
    var page := PageOf(p);
    assert page / 0x4_0000 == p.up.up.i;
    assert page / 512 == p.up.up.i * 512 + p.up.i;
  }

  /** The kernel's VPN macro on an address is the path of its page. */
  lemma VpnIsPath(va: nat)
    requires va < PAGES * PAGE_SIZE
    ensures PathOf(va / PAGE_SIZE) == VpnPath(va)
  {
    var page := va / PAGE_SIZE;
    assert va / 0x20_0000 == page / 512 && va / 0x4000_0000 == page / 0x4_0000;
  }

  /** The steps `map_page` and `vmm_lookup` take for an address. */
  function VpnPath(va: nat): (p: Path)
    ensures PagePath(p)
  {
    Step(Step(Step(Top, Vpn(va, 2)), Vpn(va, 1)), Vpn(va, 0))
  }
}
