/**
  Two machines with too little memory. On one kmain starts its first program without a stack page; on
  the other the first fork of that program is denied, and the frames it was given up with never come
  back. Both run a kernel as the linker script lays it out, and a RAMDISK with one ELF file.
 */
module LowMemory {
  import opened Sv39
  import opened Bytes
  import opened Platform
  import opened PageTrees
  import opened Budget
  import opened Vmm
  import opened Elf
  import opened Procs
  import opened Steps
  import opened Kernel
  import opened Isolation
  import opened Syscalls
  import Ramdisk

  // ---- the kernel ----

  /** Code from 0x8020_0000, constants, data, and zeroed variables up to `end`. */
  function KernelUpTo(end: nat): Layout { Layout(0x8020_0000, 0x8022_0000, 0x8022_0000, 0x8024_0000, end) }

  predicate GoodEnd(end: nat) { 0x8024_0000 <= end <= 0x87FF_F000 && end % PAGE_SIZE == 0 }

  /** The tables for the megabytes 2 * i to 2 * i + 2 of RAM, for 1 <= i < n. */
  function RamTables(n: nat): set<Path> { set i: nat | 1 <= i < n :: Step(Step(Top, 2), i) }

  /** The tables of every address space: RAM and devices, and the two above them. */
  function TablesHere(): set<Path> {
    {Step(Top, 0), Step(Top, 2)} + {Step(Step(Top, 0), 96), Step(Step(Top, 0), 97), Step(Step(Top, 0), 128)} +
      RamTables(64)
  }

  lemma {:induction false} RamTableCount(n: nat)
    requires n > 0
    ensures |RamTables(n)| == n - 1
  {
    if n == 1 {
      assert RamTables(1) == {};
    } else {
      RamTableCount(n - 1);
      assert RamTables(n) == RamTables(n - 1) + {Step(Step(Top, 2), n - 1)};
    }
  }

  lemma TableCount()
    ensures |TablesHere()| == 68
  {
    var upper := {Step(Top, 0), Step(Top, 2)};
    var devices := {Step(Step(Top, 0), 96), Step(Step(Top, 0), 97), Step(Step(Top, 0), 128)};
    assert |upper| == 2 && |devices| == 3;
    RamTableCount(64);
    UnionSize(upper, devices);
    UnionSize(upper + devices, RamTables(64));
  }

  /** Wherever the kernel ends, it takes 69 frames to map it. */
  lemma SpaceHere(end: nat)
    requires GoodEnd(end)
    ensures KernelTables(KernelUpTo(end)) == TablesHere() && SpaceFrames(KernelUpTo(end)) == 69
  {
    hide TablesHere, KernelTables;
    forall p ensures p in KernelTables(KernelUpTo(end)) <==> p in TablesHere() { TableHere(end, p); }
    TableCount();
  }

  lemma RangesHere(end: nat)
    requires GoodEnd(end)
    ensures var lay := KernelUpTo(end);
      && KernelRange(lay, 0) == (0x8_0200, 0x8_0220) && KernelRange(lay, 1) == (0x8_0220, 0x8_0240)
      && KernelRange(lay, 2) == (0x8_0240, end / PAGE_SIZE) && KernelRange(lay, 3) == (end / PAGE_SIZE, 0x8_8000)
      && KernelRange(lay, 4) == (0x1_0000, 0x1_0001) && KernelRange(lay, 5) == (0xC000, 0xC202)
      && 0x8_0240 <= end / PAGE_SIZE <= 0x8_8000
  {
  }

  /** The four ranges of RAM together are RAM from the kernel's first page on. */
  lemma RamRange(end: nat, page: nat) returns (k: nat)
    requires GoodEnd(end) && 0x8_0200 <= page < 0x8_8000
    ensures k < 4 && KernelRange(KernelUpTo(end), k).0 <= page < KernelRange(KernelUpTo(end), k).1
  {
    RangesHere(end);
    k := if page < 0x8_0220 then 0 else if page < 0x8_0240 then 1 else if page < end / PAGE_SIZE then 2 else 3;
  }

  lemma RamPrefixes(page: nat)
    requires 0x8_0200 <= page < 0x8_8000
    ensures Prefixes(PathOf(page)) == {Step(Top, 2), Step(Step(Top, 2), (page - 0x8_0000) / 512)}
    ensures 1 <= (page - 0x8_0000) / 512 < 64
  {
  }

  lemma DevicePrefixes()
    ensures Prefixes(PathOf(0x1_0000)) == {Step(Top, 0), Step(Step(Top, 0), 128)}
    ensures forall page {:trigger PathOf(page)} | 0xC000 <= page < 0xC202 ::
      Prefixes(PathOf(page)) == {Step(Top, 0), Step(Step(Top, 0), if page < 0xC200 then 96 else 97)}
    ensures Step(Step(Top, 0), 96) in Prefixes(PathOf(0xC000)) && Step(Step(Top, 0), 97) in Prefixes(PathOf(0xC200))
  {
  }

  lemma TableHere(end: nat, p: Path)
    requires GoodEnd(end)
    ensures p in KernelTables(KernelUpTo(end)) <==> p in TablesHere()
  {
    hide RamTables, KernelTables, KernelUpTo;
    if p in KernelTables(KernelUpTo(end)) { NoOtherTable(end, p); }
    if p in RamTables(64) || p == Step(Top, 2) { RamTable(end, p); }
    DeviceTables(end);
  }

  /** A table of the kernel's map is one of those. */
  lemma NoOtherTable(end: nat, p: Path)
    requires GoodEnd(end) && p in KernelTables(KernelUpTo(end))
    ensures p in TablesHere()
  {
    hide PathOf, Prefixes, RangeTables, RangesTables, KernelRange, KernelUpTo, RamTables;
    var lay := KernelUpTo(end);
    RangesHere(end);
    InRanges(lay, 6, p);
    var k: nat :|
      k < 6 && KernelRange(lay, k).1 <= PAGES && p in RangeTables(KernelRange(lay, k).0, KernelRange(lay, k).1);
    InRange(KernelRange(lay, k).0, KernelRange(lay, k).1, p);
    var page :| KernelRange(lay, k).0 <= page < KernelRange(lay, k).1 && p in Prefixes(PathOf(page));
    if k < 4 {
      RamPrefixes(page);
      RamTableAt((page - 0x8_0000) / 512);
    } else {
      DevicePrefixes();
    }
  }

  /** Each of those above RAM is needed for a page of one of the four ranges. */
  lemma RamTable(end: nat, p: Path)
    requires GoodEnd(end) && (p in RamTables(64) || p == Step(Top, 2))
    ensures p in KernelTables(KernelUpTo(end))
  {
    hide PathOf, Prefixes, RangeTables, RangesTables, KernelRange, KernelUpTo, RamTables;
    var lay := KernelUpTo(end);
    var i := RamTableOf(p);
    var page := 0x8_0000 + 512 * i + 511;
    RamPrefixes(page);
    var k := RamRange(end, page);
    RangesHere(end);
    InRange(KernelRange(lay, k).0, KernelRange(lay, k).1, p);
    InRanges(lay, 6, p);
  }

  lemma DeviceTables(end: nat)
    requires GoodEnd(end)
    ensures var all := KernelTables(KernelUpTo(end));
      && Step(Top, 0) in all && Step(Step(Top, 0), 96) in all && Step(Step(Top, 0), 97) in all
      && Step(Step(Top, 0), 128) in all
  {
    hide PathOf, Prefixes, RangeTables, RangesTables, KernelRange, KernelUpTo;
    RangesHere(end);
    DevicePrefixes();
    DeviceTable(end, 4, 0x1_0000, Step(Top, 0));
    DeviceTable(end, 4, 0x1_0000, Step(Step(Top, 0), 128));
    DeviceTable(end, 5, 0xC000, Step(Step(Top, 0), 96));
    DeviceTable(end, 5, 0xC200, Step(Step(Top, 0), 97));
  }

  lemma DeviceTable(end: nat, k: nat, page: nat, p: Path)
    requires k < 6 && KernelRange(KernelUpTo(end), k).1 <= PAGES && page < PAGES && p in Prefixes(PathOf(page))
    requires KernelRange(KernelUpTo(end), k).0 <= page < KernelRange(KernelUpTo(end), k).1
    ensures p in KernelTables(KernelUpTo(end))
  {
    hide PathOf, Prefixes, RangeTables, RangesTables, KernelRange, KernelUpTo;
    InRange(KernelRange(KernelUpTo(end), k).0, KernelRange(KernelUpTo(end), k).1, p);
    InRanges(KernelUpTo(end), 6, p);
  }

  lemma RamTableAt(i: nat)
    requires 1 <= i < 64
    ensures Step(Step(Top, 2), i) in RamTables(64)
  {
  }

  lemma RamTableOf(p: Path) returns (i: nat)
    requires p in RamTables(64) || p == Step(Top, 2)
    ensures 1 <= i < 64 && (p == Step(Top, 2) || p == Step(Step(Top, 2), i))
  {
    if p == Step(Top, 2) { return 1; }
    i :| 1 <= i < 64 && p == Step(Step(Top, 2), i);
  }

  // ---- the RAMDISK ----

  const ZEROS: seq<byte> := [0, 0, 0, 0, 0, 0, 0, 0]

  /** The header of an ELF64 file for RISC-V, entry point 0x40_0000, no program headers. */
  function Header(): (h: seq<byte>)
    ensures |h| == 64 && h[0] == 0x7F && h[1] == 0x45 && h[2] == 0x4C && h[3] == 0x46 && h[56] == 0 && h[57] == 0
  {
    var ident: seq<byte> := [0x7F, 0x45, 0x4C, 0x46, 2, 1, 1, 0] + ZEROS;
    var kind: seq<byte> := [2, 0, 0xF3, 0, 1, 0, 0, 0] + [0, 0, 0x40, 0, 0, 0, 0, 0];
    var tables: seq<byte> := [64, 0, 0, 0, 0, 0, 0, 0] + ZEROS;
    var sizes: seq<byte> := [5, 0, 0, 0, 64, 0, 56, 0] + [0, 0, 64, 0, 0, 0, 0, 0];
    ident + kind + tables + sizes
  }

  /** The RAMDISK with that file as init.elf. */
  function Disk(): seq<byte> { Ramdisk.Image([Ramdisk.InFile(INIT_ELF, Header())]) }

  /** A RAMDISK with one file under a name that fits. */
  lemma OneFileDisk(files: seq<Ramdisk.InFile>, name: seq<byte>, bytes: seq<byte>)
    requires files == [Ramdisk.InFile(name, bytes)] && |name| < Ramdisk.NAME_SIZE && |bytes| < 100
    requires Ramdisk.NoNul(name) && Ramdisk.SLASH !in name
    ensures var img := Ramdisk.Image(files);
      && Ramdisk.IsLookup(img, name, 0) && Ramdisk.Count(img) == 1 && Ramdisk.OffsetOf(img, 0) + |bytes| <= |img|
      && img[Ramdisk.OffsetOf(img, 0)..Ramdisk.OffsetOf(img, 0) + |bytes|] == bytes
  {
    hide LE, Ramdisk.CString, Ramdisk.OffsetOf, Ramdisk.SizeOf, Ramdisk.NameOf;
    assert Ramdisk.OffsetFrom(files, Ramdisk.DataStart(1), 1) == Ramdisk.DataStart(1) + |bytes|;
    Ramdisk.BaseNameUnique(name, name, Ramdisk.BaseName(name));
    Ramdisk.PackedEntry(files, 0);
  }

  /** All of what the loader reads of the file is in the image. */
  lemma DiskIsGood()
    ensures var img := Disk();
      && Ramdisk.IsLookup(img, INIT_ELF, 0) && Ramdisk.Count(img) == 1 && Ramdisk.OffsetOf(img, 0) + 64 <= |img|
      && Magic(img, Ramdisk.OffsetOf(img, 0)) == ELF_NUM && PhdrCount(img, Ramdisk.OffsetOf(img, 0)) == 0
      && GoodDisk(img)
  {
    hide Header, Ramdisk.Image, Ramdisk.OffsetOf, Ramdisk.Count, Ramdisk.IsLookup, Magic, PhdrCount, GoodDisk;
    var img := Disk();
    assert Ramdisk.NoNul(INIT_ELF) && Ramdisk.SLASH !in INIT_ELF;
    OneFileDisk([Ramdisk.InFile(INIT_ELF, Header())], INIT_ELF, Header());
    HeaderReads(img, Ramdisk.OffsetOf(img, 0), Header());
    NothingToLoad(img);
  }

  lemma HeaderReads(img: seq<byte>, at: nat, h: seq<byte>)
    requires |h| == 64 && h[0] == 0x7F && h[1] == 0x45 && h[2] == 0x4C && h[3] == 0x46 && h[56] == 0 && h[57] == 0
    requires at + 64 <= |img| && img[at..at + 64] == h
    ensures Magic(img, at) == ELF_NUM && PhdrCount(img, at) == 0
  {
    assert forall i {:trigger h[i]} | 0 <= i < 64 :: img[at + i] == h[i];
    assert h[0] == 0x7F && h[1] == 0x45 && h[2] == 0x4C && h[3] == 0x46 && h[56] == 0 && h[57] == 0;
    assert LE(img, at + 3, 1) == 0x46 && LE(img, at + 2, 2) == 0x464C && LE(img, at + 1, 3) == 0x46_4C45;
    assert LE(img, at + 57, 1) == 0;
  }

  lemma NothingToLoad(img: seq<byte>)
    requires Ramdisk.Count(img) == 1 && PhdrCount(img, Ramdisk.OffsetOf(img, 0)) == 0
    ensures GoodDisk(img)
  {
    hide Ramdisk.OffsetOf, Ramdisk.Count, Magic, PhdrCount, PhdrAt;
    forall i: nat {:trigger Ramdisk.OffsetOf(img, i)} | i < Ramdisk.Count(img)
      ensures GoodImage(img, Ramdisk.OffsetOf(img, i))
    {
      assert i == 0;
    }
  }

  // ---- the machines ----

  /** On any such machine booting takes 140 frames, and the table above the stack page one more. */
  lemma BootTakes(end: nat)
    requires GoodEnd(end)
    ensures KernelUpTo(end).Valid() && BootFrames(KernelUpTo(end), Disk(), 0) == 140
    ensures Bootable(KernelUpTo(end), Disk(), 0) <==> end <= 0x87F7_3000
    ensures FramesAtBoot(KernelUpTo(end)) == (0x87FF_F000 - end) / PAGE_SIZE
  {
    hide KernelTables, SpaceFrames, Disk, Ramdisk.OffsetOf, Ramdisk.Count, Ramdisk.IsLookup, Magic, PhdrCount, GoodDisk;
    SpaceHere(end);
    DiskIsGood();
    assert ImageTables(Disk(), Ramdisk.OffsetOf(Disk(), 0), 0) - KernelTables(KernelUpTo(end)) == {};
  }

  /**
    With just those 140 frames it boots, and the running program's stack page is mapped nowhere: its
    frame is lost, although nothing has failed as far as kmain can tell.
   */
  method BootsWithoutStack(ram: Mem) returns (m: Machine)
    requires |ram| == TOTAL_PAGES
    ensures m.mode == UserMode && m.Inv() && m.cur < |m.procs| && m.procs[m.cur].root >= 0
    ensures Entry(m.vm.mem, m.procs[m.cur].root, PathOf(STACK_PAGE)) == 0
    ensures exists f :: 0 <= f < |m.vm.owner| && m.vm.owner[f] == Lost
  {
    hide GoodDisk, Disk, KernelUpTo, BootFrames, FramesAtBoot, Machine.Inv, PathOf, Ramdisk.IsLookup, Ramdisk.OffsetOf,
         Magic;
    BootTakes(0x87F7_3000);
    DiskIsGood();
    m := new Machine(ram, KernelUpTo(0x87F7_3000), Disk());
    m.OneInit(0);
  }

  /**
    With 210 frames it boots with a stack, and 69 are left: those of a kernel tree. The first fork of
    init.elf is denied, and all 69 belong to a tree that no process has.
   */
  method ForkLosesATree(ram: Mem, regs: TrapFrame) returns (m: Machine)
    requires |ram| == TOTAL_PAGES && regs.a7 == 3
    ensures m.mode == UserMode && m.Inv() && m.cur < |m.procs| && m.procs[m.cur].tf.a0 == Err(E_AGAIN)
    ensures exists r: nat {:trigger r in m.leaked} :: r in m.leaked && |TreeFrames(m.vm.owner, r)| == 69
    ensures NoFree(m.vm.owner)
  {
    hide GoodDisk, Disk, KernelUpTo, BootFrames, FramesAtBoot, PathOf, Ramdisk.IsLookup, Ramdisk.OffsetOf, Magic;
    hide Machine.Inv, Machine.InitLoaded, Machine.SyscallResult, Bystanders, OthersKeep, SpaceFrames, FreeFrames,
         NoFree, Full, WithRegs, TreeFrames;
    BootTakes(0x87F2_D000);
    SpaceHere(0x87F2_D000);
    DiskIsGood();
    m := new Machine(ram, KernelUpTo(0x87F2_D000), Disk());
    LeftAfterBoot(m, 0x87F2_D000);
    m.CurrentFits();
    ghost var w := m.Trapped(regs);
    TrapOf(m.procs, m.cur, regs);
    OneOfMany(w.t, m.cur);
    ghost var who := m.cur;
    m.Ecall(regs);
    DeniedByTheMachine(m, w, who);
  }

  lemma TrapOf(t: Table, cur: nat, regs: TrapFrame)
    requires cur < |t|
    ensures var t' := t[cur := WithRegs(t[cur], regs.Advanced())];
      t'[cur].tf.a7 == regs.a7 && forall i {:trigger t'[i]} | 0 <= i < |t| && i != cur :: t'[i] == t[i]
  {
  }

  /** What booting leaves when it leaves anything. */
  lemma LeftAfterBoot(m: Machine, end: nat)
    requires GoodEnd(end) && m.lay == KernelUpTo(end) && m.img == Disk() && m.cur < |m.procs| && m.InitLoaded()
    ensures |FreeFrames(m.vm.owner)| == if end < 0x87F7_3000 then FramesAtBoot(m.lay) - 141 else 0
  {
    hide KernelUpTo, BootFrames, FramesAtBoot, Ramdisk.IsLookup, Ramdisk.OffsetOf, Ramdisk.Image, Magic, FreeFrames;
    BootTakes(end);
    DiskIsGood();
    m.OneInit(0);
  }

  lemma OneOfMany(t: Table, cur: nat)
    requires |t| == MAX_PROCS && forall i {:trigger t[i]} | 0 <= i < MAX_PROCS && i != cur :: !t[i].Live()
    ensures !Full(t)
  {
    assert !t[if cur == 0 then 1 else 0].Live();
  }

  lemma DeniedByTheMachine(m: Machine, w: Was, who: nat)
    requires w.Fits(who) && m.SyscallResult(w, who) && w.t[who].tf.a7 == 3 && !Full(w.t)
    requires Forest(w.mem, w.owner) && |FreeFrames(w.owner)| == SpaceFrames(m.lay) == 69
    ensures m.mode == UserMode && m.cur < |m.procs| && m.procs[m.cur].tf.a0 == Err(E_AGAIN) && NoFree(m.vm.owner)
    ensures exists r: nat {:trigger r in m.leaked} :: r in m.leaked && |TreeFrames(m.vm.owner, r)| == 69
  {
    hide SpaceFrames, FreeFrames, CopyFrames, KernelTables, TreeFrames, Forest, NoFree, Denied;
    var a, b := Shot(w.t, w.pid, w.mem, w.owner), Shot(m.procs, m.nextPid, m.vm.mem, m.vm.owner);
    var r: int :| Denied(m.lay, a, b, m.cur, r) && m.leaked == WithTree(w.leaked, r);
    AllToOneTree(m.lay, a, b, m.cur, r);
    assert r in m.leaked;
  }

  /** With just the frames of a kernel tree a denied fork gives all of them to the tree it drops. */
  lemma AllToOneTree(lay: Layout, a: Shot, b: Shot, who: nat, r: int)
    requires Denied(lay, a, b, who, r) && !Full(a.t) && |FreeFrames(a.owner)| > 0 && Forest(a.mem, a.owner)
    ensures r >= 0 && NoFree(b.owner) && TreeFrames(b.owner, r) == FreeFrames(a.owner)
    ensures |b.t| == MAX_PROCS && who < MAX_PROCS && b.t[who].tf.a0 == Err(E_AGAIN)
  {
    hide V, Leaf, Target, EntriesOk, UsedKeep, AllocRefused;
    NoFreeIsZero(a.owner);
    forall f: nat ensures f in TreeFrames(b.owner, r) <==> f in FreeFrames(a.owner) {
      if f < |a.owner| {
        assert if a.owner[f] != Free then b.owner[f] == a.owner[f] else b.owner[f].Node? && b.owner[f].root == r;
        if a.owner[f].Node? { FreshRoot(a.mem, a.owner, f, r); }
      }
    }
  }
}
