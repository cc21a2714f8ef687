/** What a program gets that opens a file of the RAMDISK and reads it: the bytes that were packed. */
module Reading {
  import opened Sv39
  import opened PageTrees
  import opened Mmu
  import opened Bytes
  import opened UserMem
  import opened Procs
  import opened Kernel
  import opened Syscalls
  import Ramdisk

  /** One read of a file: the processes and memory before and after it. */
  datatype Read = Read(t: Table, mem: Mem, owner: Owners, t': Table, mem': Mem) {
    /** It is one of process `who` from descriptor `fd`, with a buffer that the kernel can reach if it needs it. */
    ghost predicate Ok(img: seq<byte>, who: nat, fd: nat) {
      && FileRead(img, t, mem, t', mem', who, fd) && Forest(mem, owner) && IsRoot(owner, t[who].root)
      && (t'[who].tf.a0 > 0 ==> RangeOk(mem, t[who].root, t[who].tf.a1, t[who].tf.a2 % 0x1_0000_0000, PTE_W))
    }

    /** The number of bytes asked for. */
    ghost function Want(who: nat): nat { if who < |t| then t[who].tf.a2 % 0x1_0000_0000 else 0 }

    /** What the program then finds at its buffer, as many bytes as the call returned. */
    ghost function Got(who: nat): seq<byte> {
      if who < |t| && who < |t'| && t[who].root >= 0 then UserBytes(mem', t[who].root, t[who].tf.a1, t'[who].tf.a0)
      else []
    }

    /** The file behind descriptor `fd`, before and after. */
    ghost function Before(who: nat, fd: nat): File { FileIn(t, who, fd) }
    ghost function After(who: nat, fd: nat): File { FileIn(t', who, fd) }
  }

  function FileIn(t: Table, who: nat, fd: nat): File {
    if who < |t| && fd < |t[who].files| then t[who].files[fd] else CLOSED
  }

  /** Reads of descriptor `fd`, the first one where it is `file`, each later one where the one before left it. */
  ghost predicate InTurn(img: seq<byte>, file: File, calls: seq<Read>, who: nat, fd: nat) {
    && (forall i {:trigger calls[i]} | 0 <= i < |calls| :: calls[i].Ok(img, who, fd))
    && forall i {:trigger calls[i]} | 0 <= i < |calls| ::
         calls[i].Before(who, fd) == if i == 0 then file else calls[i - 1].After(who, fd)
  }

  /** What all of them were asked for. */
  ghost function Wanted(calls: seq<Read>, who: nat): nat {
    if calls == [] then 0 else Wanted(calls[..|calls| - 1], who) + calls[|calls| - 1].Want(who)
  }

  /** What all of them delivered. */
  ghost function Delivered(calls: seq<Read>, who: nat): seq<byte> {
    if calls == [] then [] else Delivered(calls[..|calls| - 1], who) + calls[|calls| - 1].Got(who)
  }

  function Min(a: nat, b: nat): nat { if a < b then a else b }

  /** One read of a file whose bytes are `bytes`, of which `done` were read. */
  lemma OneRead(img: seq<byte>, bytes: seq<byte>, data: nat, rd: Read, who: nat, fd: nat, done: nat)
    requires rd.Ok(img, who, fd) && data + |bytes| <= |img| && img[data..data + |bytes|] == bytes && done <= |bytes|
    requires rd.Before(who, fd) == File(RamdiskFile, done, |bytes|, data)
    ensures var n := Min(rd.Want(who), |bytes| - done);
      && who < |rd.t'| && rd.t'[who].tf.a0 == n && rd.Got(who) == bytes[done..done + n]
      && rd.After(who, fd) == File(RamdiskFile, done + n, |bytes|, data)
  {
    hide Forest, StoreBytes, RangeOk, LoadByte;
    var (p, n) := (rd.t[who], Min(rd.Want(who), |bytes| - done));
    assert Ramdisk.ReadSize(done, |bytes|, p.tf.a2 % Ramdisk.LIMIT32) == n;
    var part := Slice(img, data + done, n);
    forall i | 0 <= i < n ensures part[i] == bytes[done + i] {
      assert img[data..data + |bytes|][done + i] == img[data + done + i];
    }
    assert part == bytes[done..done + n];
    if n > 0 { BytesStored(rd.mem, rd.owner, p.root, p.tf.a1, p.tf.a2 % Ramdisk.LIMIT32, part); }
    forall i | 0 <= i < n ensures rd.Got(who)[i] == part[i] {
      assert LoadByte(rd.mem', p.root, p.tf.a1 + i) == part[i];
    }
    assert rd.Got(who) == part;
  }

  lemma OneMoreWanted(a: nat, b: nat, size: nat)
    ensures Min(0, size) == 0 && Min(a, size) <= Min(a + b, size) <= size
    ensures Min(a, size) + Min(b, size - Min(a, size)) == Min(a + b, size)
  {
  }

  lemma AllButOne(img: seq<byte>, file: File, calls: seq<Read>, who: nat, fd: nat)
    requires InTurn(img, file, calls, who, fd) && calls != []
    ensures var (n, before) := (|calls| - 1, calls[..|calls| - 1]);
      && InTurn(img, file, before, who, fd) && calls[n].Ok(img, who, fd)
      && calls[n].Before(who, fd) == if n == 0 then file else before[n - 1].After(who, fd)
  {
    hide Read.Ok, Read.Before, Read.After;
    var (n, before) := (|calls| - 1, calls[..|calls| - 1]);
    assert forall i {:trigger before[i]} | 0 <= i < n :: before[i] == calls[i];
    assert calls[n].Ok(img, who, fd);
  }

  /** Any number of reads from the file's beginning. */
  lemma {:induction false} ReadsInTurn(img: seq<byte>, bytes: seq<byte>, data: nat, calls: seq<Read>, who: nat, fd: nat)
    requires data + |bytes| <= |img| && img[data..data + |bytes|] == bytes
    requires InTurn(img, File(RamdiskFile, 0, |bytes|, data), calls, who, fd)
    ensures Delivered(calls, who) == bytes[..Min(Wanted(calls, who), |bytes|)]
    ensures calls != [] ==>
      calls[|calls| - 1].After(who, fd) == File(RamdiskFile, Min(Wanted(calls, who), |bytes|), |bytes|, data)
    decreases |calls|
  {
    hide Read.Ok, Read.Got, Read.Want, Read.Before, Read.After, InTurn, Wanted, Delivered, Min;
    OneMore(calls, who);
    OneMoreWanted(0, 0, |bytes|);
    if calls == [] { return; }
    var n, before := |calls| - 1, calls[..|calls| - 1];
    AllButOne(img, File(RamdiskFile, 0, |bytes|, data), calls, who, fd);
    ReadsInTurn(img, bytes, data, before, who, fd);
    OneMore(before, who);
    OneMoreWanted(Wanted(before, who), calls[n].Want(who), |bytes|);
    OneRead(img, bytes, data, calls[n], who, fd, Min(Wanted(before, who), |bytes|));
    Ramdisk.SliceJoin(bytes, 0, Min(Wanted(before, who), |bytes|), Min(Wanted(calls, who), |bytes|));
  }

  lemma OneMore(calls: seq<Read>, who: nat)
    ensures calls == [] ==> Wanted(calls, who) == 0 && Delivered(calls, who) == []
    ensures calls != [] ==> var (n, before) := (|calls| - 1, calls[..|calls| - 1]);
      && Wanted(calls, who) == Wanted(before, who) + calls[n].Want(who)
      && Delivered(calls, who) == Delivered(before, who) + calls[n].Got(who)
  {
    hide Read.Want, Read.Got;
  }

  /**
    Open a packed file by the name that was kept of it, and read: whatever sizes are asked for and
    whatever happens in between, the program finds the file's bytes at its buffers, in order, and all
    of them once it has asked for enough.
   */
  lemma OpenThenRead(files: seq<Ramdisk.InFile>, name: seq<byte>, entry: nat, t: Table, t': Table, calls: seq<Read>,
                     who: nat, fd: nat)
    requires Ramdisk.Packable(files) && Ramdisk.IsLookup(Ramdisk.Image(files), name, entry)
    requires Opened(Ramdisk.Image(files), t, t', who, entry, fd)
    requires InTurn(Ramdisk.Image(files), t'[who].files[fd], calls, who, fd)
    ensures entry < |files| && Ramdisk.Kept(Ramdisk.BaseName(files[entry].path)) == name && t'[who].tf.a0 == fd
    ensures Delivered(calls, who) == files[entry].bytes[..Min(Wanted(calls, who), |files[entry].bytes|)]
  {
    hide Ramdisk.Image, Ramdisk.OffsetOf, Ramdisk.SizeOf, Ramdisk.Packable, Ramdisk.IsLookup, InTurn;
    var img := Ramdisk.Image(files);
    Ramdisk.PackThenLookup(files, name, entry);
    Ramdisk.PackedEntry(files, entry);
    ReadsInTurn(img, files[entry].bytes, Ramdisk.OffsetOf(img, entry), calls, who, fd);
  }

  /** Once the whole file was asked for, every further read returns 0. */
  lemma ThenNothing(img: seq<byte>, bytes: seq<byte>, data: nat, calls: seq<Read>, who: nat, fd: nat, more: Read)
    requires data + |bytes| <= |img| && img[data..data + |bytes|] == bytes
    requires InTurn(img, File(RamdiskFile, 0, |bytes|, data), calls + [more], who, fd)
    requires Wanted(calls, who) >= |bytes|
    ensures who < |more.t'| && more.t'[who].tf.a0 == 0
  {
    hide Read.Ok, Read.Got, Read.Want, Read.Before, Read.After, InTurn, Delivered;
    assert (calls + [more])[..|calls|] == calls && (calls + [more])[|calls|] == more;
    AllButOne(img, File(RamdiskFile, 0, |bytes|, data), calls + [more], who, fd);
    ReadsInTurn(img, bytes, data, calls, who, fd);
    OneRead(img, bytes, data, more, who, fd, |bytes|);
  }

  // ---- the system calls ----

  /** An open that found its file is one of these. */
  lemma OpenIsOpened(m: Machine, w: Was, entry: int, fd: int)
    requires w.Fits(m.cur) && m.OpenResult(w, entry, fd) && entry >= 0
    ensures fd >= 0 && Opened(m.img, w.t, m.procs, m.cur, entry, fd)
  {
    hide Machine.NamedFile, StringFaults;
  }

  /** And a read that was not refused is one of those. */
  lemma ReadIsRead(m: Machine, w: Was, who: nat)
    requires w.Fits(who) && w.t[who].tf.a7 == 8 && m.SyscallResult(w, who) && m.mode != Halted
    requires Forest(w.mem, w.owner) && IsRoot(w.owner, w.t[who].root)
    requires Accepts(w.mem, w.t[who].root, w.t[who].tf.a1, w.t[who].tf.a2 % 0x1_0000_0000, PTE_W)
    requires IsOpen(w.t[who].files, AsInt(w.t[who].tf.a0)) && w.t[who].files[AsInt(w.t[who].tf.a0)].kind == RamdiskFile
    ensures Read(w.t, w.mem, w.owner, m.procs, m.vm.mem).Ok(m.img, who, AsInt(w.t[who].tf.a0))
  {
    hide Forest, StoreBytes, RangeOk, Accepts, Slice;
    var (p, size) := (w.t[who], w.t[who].tf.a2 % Ramdisk.LIMIT32);
    if p.tf.a1 + size <= LOW_HALF { CheckIsRange(w.mem, p.root, p.tf.a1, size, PTE_W); }
  }
}
