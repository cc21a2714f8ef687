/** The RAMDISK: packed by tools/mkramdisk.c, looked up by ramdisk_get_entry, read by SYS_READ. */
module Ramdisk {
  import opened Sv39
  import opened Bytes

  const MAGIC := 0x4C415A55
  const SLASH: byte := 47
  const HEADER_SIZE := 8
  const ENTRY_SIZE := 40
  const NAME_SIZE := 32
  const LIMIT32 := 0x1_0000_0000

  // ---- C strings ----

  /** The bytes of a C string that starts at `at`. */
  function CString(img: seq<byte>, at: nat): (s: seq<byte>)
    ensures forall k | 0 <= k < |s| :: s[k] != 0
    decreases |img| - at
  {
    if ByteAt(img, at) == 0 then [] else [img[at]] + CString(img, at + 1)
  }

  predicate NoNul(s: seq<byte>) { forall k | 0 <= k < |s| :: s[k] != 0 }

  /** streq of a name in the image and a name without a NUL. */
  method StrEq(img: seq<byte>, at: nat, name: seq<byte>) returns (eq: bool)
    requires NoNul(name)
    ensures eq <==> CString(img, at) == name
  {
    var i := 0;
    assert name[0..] == name;
    while ByteAt(img, at + i) != 0 && ByteAt(name, i) != 0
      invariant i <= |name|
      invariant CString(img, at) == name <==> CString(img, at + i) == name[i..]
      decreases |name| - i
    {
      assert name[i..] == [name[i]] + name[i + 1..];
      if ByteAt(img, at + i) != ByteAt(name, i) {
        assert CString(img, at + i)[0] == img[at + i];
        return false;
      }
      ConsEq(img[at + i], CString(img, at + i + 1), name[i + 1..]);
      i := i + 1;
    }
    assert ByteAt(name, i) == 0 <==> name[i..] == [];
    return ByteAt(img, at + i) == ByteAt(name, i);
  }

  lemma ConsEq(b: byte, s: seq<byte>, t: seq<byte>)
    ensures [b] + s == [b] + t <==> s == t
  {
    if [b] + s == [b] + t { assert s == ([b] + s)[1..] == ([b] + t)[1..] == t; }
  }

  // ---- ramdisk_get_entry ----

  function Count(img: seq<byte>): nat { LE(img, 4, 4) }
  function EntryAt(i: nat): nat { HEADER_SIZE + ENTRY_SIZE * i }
  function NameOf(img: seq<byte>, i: nat): seq<byte> { CString(img, EntryAt(i)) }
  function OffsetOf(img: seq<byte>, i: nat): nat { LE(img, EntryAt(i) + NAME_SIZE, 4) }
  function SizeOf(img: seq<byte>, i: nat): nat { LE(img, EntryAt(i) + NAME_SIZE + 4, 4) }

  /** The first entry with the name, or -1: also for an image that is no RAMDISK. */
  ghost predicate IsLookup(img: seq<byte>, name: seq<byte>, r: int)
  {
    if r == -1 then LE(img, 0, 4) != MAGIC || forall i | 0 <= i < Count(img) :: NameOf(img, i) != name
    else
      && LE(img, 0, 4) == MAGIC && 0 <= r < Count(img) && NameOf(img, r) == name
      && forall i | 0 <= i < r :: NameOf(img, i) != name
  }

  lemma OneLookup(img: seq<byte>, name: seq<byte>, r: int, r': int)
    requires IsLookup(img, name, r) && IsLookup(img, name, r')
    ensures r == r'
  {
    hide NameOf, Count;
  }

  method GetEntry(img: seq<byte>, name: seq<byte>) returns (r: int)
    requires NoNul(name)
    ensures IsLookup(img, name, r)
  {
    if LE(img, 0, 4) != MAGIC { return -1; }
    for i := 0 to Count(img)
      invariant forall j | 0 <= j < i :: NameOf(img, j) != name
    {
      var eq := StrEq(img, EntryAt(i), name);
      if eq { return i; }
    }
    return -1;
  }

  // ---- mkramdisk ----

  /** An input file: its path, a C string, and its bytes. */
  datatype InFile = InFile(path: seq<byte>, bytes: seq<byte>)

  /** `base` is `path` after its last slash. */
  predicate IsBaseName(path: seq<byte>, base: seq<byte>) {
    |base| <= |path| && base == path[|path| - |base|..] && SLASH !in base
    && (|base| < |path| ==> path[|path| - |base| - 1] == SLASH)
  }

  method GetFilename(path: seq<byte>) returns (base: seq<byte>)
    ensures IsBaseName(path, base)
  {
    var p := |path|;
    while p > 0 && path[p - 1] != SLASH
      invariant 0 <= p <= |path| && SLASH !in path[p..]
    {
      p := p - 1;
    }
    base := path[p..];
  }

  function BaseName(path: seq<byte>): (base: seq<byte>)
    ensures IsBaseName(path, base)
    decreases |path|
  {
    if SLASH !in path then path
    else if path[0] == SLASH && SLASH !in path[1..] then path[1..]
    else BaseName(path[1..])
  }

  lemma BaseNameUnique(path: seq<byte>, a: seq<byte>, b: seq<byte>)
    requires IsBaseName(path, a) && IsBaseName(path, b)
    ensures a == b
  {
    NoLonger(path, a, b);
    NoLonger(path, b, a);
  }

  lemma NoLonger(path: seq<byte>, a: seq<byte>, b: seq<byte>)
    requires IsBaseName(path, a) && IsBaseName(path, b)
    ensures |b| <= |a|
  {
    if |a| < |b| { SlashInside(path, a, b); }
  }

  /** The slash before the shorter name would be a byte of the longer one. */
  lemma SlashInside(path: seq<byte>, a: seq<byte>, b: seq<byte>)
    requires |a| < |b| <= |path| && b == path[|path| - |b|..]
    ensures path[|path| - |a| - 1] in b
  {
    assert b[|b| - |a| - 1] == path[|path| - |a| - 1];
  }

  /** What the 32-byte field keeps of a name: its first 31 bytes. */
  function Kept(name: seq<byte>): seq<byte> { if |name| <= NAME_SIZE - 1 then name else name[..NAME_SIZE - 1] }

  /** strncpy of 31 bytes and the final NUL: the kept bytes, then zeros. */
  function NameField(name: seq<byte>): (f: seq<byte>)
    ensures |f| == NAME_SIZE
  {
    Kept(name) + seq(NAME_SIZE - |Kept(name)|, _ => 0)
  }

  function DataStart(n: nat): nat { HEADER_SIZE + ENTRY_SIZE * n }

  /** Where file `k` starts when the files are laid out one after another from `from`. */
  function OffsetFrom(files: seq<InFile>, from: nat, k: nat): nat
    requires k <= |files|
  {
    if k == 0 then from else OffsetFrom(files, from, k - 1) + |files[k - 1].bytes|
  }

  function EntryBytes(name: seq<byte>, offset: nat, size: nat): (e: seq<byte>)
    ensures |e| == ENTRY_SIZE
  {
    NameField(name) + Word32(offset) + Word32(size)
  }

  function Header(n: nat): (h: seq<byte>)
    ensures |h| == HEADER_SIZE
  {
    Word32(MAGIC) + Word32(n)
  }

  function DirEntry(files: seq<InFile>, k: nat): (e: seq<byte>)
    requires k < |files|
    ensures |e| == ENTRY_SIZE
  {
    EntryBytes(BaseName(files[k].path), OffsetFrom(files, DataStart(|files|), k), |files[k].bytes|)
  }

  function Directory(files: seq<InFile>, n: nat): (d: seq<byte>)
    requires n <= |files|
    ensures |d| == ENTRY_SIZE * n
  {
    if n == 0 then [] else Directory(files, n - 1) + DirEntry(files, n - 1)
  }

  function Data(files: seq<InFile>, n: nat): seq<byte>
    requires n <= |files|
  {
    if n == 0 then [] else Data(files, n - 1) + files[n - 1].bytes
  }

  function Image(files: seq<InFile>): seq<byte> { Header(|files|) + Directory(files, |files|) + Data(files, |files|) }

  /** Names distinct as far as they are kept, and everything addressable with 32 bits. */
  ghost predicate Packable(files: seq<InFile>) {
    && (forall k | 0 <= k < |files| :: NoNul(files[k].path))
    && (forall j, k | 0 <= j < k < |files| :: Kept(BaseName(files[j].path)) != Kept(BaseName(files[k].path)))
    && OffsetFrom(files, DataStart(|files|), |files|) < LIMIT32
  }

  /** main: directory in one pass, contents in a second. */
  method Pack(files: seq<InFile>) returns (out: seq<byte>)
    ensures out == Image(files)
  {
    out := Word32(MAGIC) + Word32(|files|);
    var entries := BuildDirectory(files);
    out := out + entries;
    for i := 0 to |files|
      invariant out == Header(|files|) + Directory(files, |files|) + Data(files, i)
    {
      out := AppendFile(out, files[i].bytes);
      assert Data(files, i + 1) == Data(files, i) + files[i].bytes;
    }
  }

  method BuildDirectory(files: seq<InFile>) returns (entries: seq<byte>)
    ensures entries == Directory(files, |files|)
  {
    hide EntryBytes, BaseName, IsBaseName, OffsetFrom, DataStart;
    entries := [];
    OffsetStart(files, DataStart(|files|));
    var currentOffset := DataStart(|files|) % LIMIT32;
    for i := 0 to |files|
      invariant entries == Directory(files, i) && currentOffset == OffsetFrom(files, DataStart(|files|), i) % LIMIT32
    {
      var base := GetFilename(files[i].path);
      BaseNameUnique(files[i].path, base, BaseName(files[i].path));
      var size := |files[i].bytes| % LIMIT32;
      EntryBytesWrap(base, OffsetFrom(files, DataStart(|files|), i), |files[i].bytes|);
      OffsetWraps(files, DataStart(|files|), i);
      entries := entries + EntryBytes(base, currentOffset, size);
      currentOffset := (currentOffset + size) % LIMIT32;
    }
  }

  lemma OffsetStart(files: seq<InFile>, from: nat)
    ensures OffsetFrom(files, from, 0) == from
  {
  }

  lemma OffsetWraps(files: seq<InFile>, from: nat, k: nat)
    requires k < |files|
    ensures OffsetFrom(files, from, k + 1) % LIMIT32 ==
      (OffsetFrom(files, from, k) % LIMIT32 + |files[k].bytes| % LIMIT32) % LIMIT32
  {
    SumWraps(OffsetFrom(files, from, k), |files[k].bytes|);
  }

  lemma SumWraps(a: nat, b: nat)
    ensures (a + b) % LIMIT32 == (a % LIMIT32 + b % LIMIT32) % LIMIT32
  {
    assert a + b == a % LIMIT32 + b % LIMIT32 + LIMIT32 * (a / LIMIT32 + b / LIMIT32);
    MultipleWraps(a % LIMIT32 + b % LIMIT32, a / LIMIT32 + b / LIMIT32);
  }

  lemma MultipleWraps(x: nat, q: nat)
    ensures (x + LIMIT32 * q) % LIMIT32 == x % LIMIT32
  {
  }

  /** Offsets and sizes are stored modulo 2^32. */
  lemma EntryBytesWrap(name: seq<byte>, offset: nat, size: nat)
    ensures EntryBytes(name, offset % LIMIT32, size % LIMIT32) == EntryBytes(name, offset, size)
  {
    hide NameField, Word32;
    Word32Wraps(offset);
    Word32Wraps(size);
  }

  lemma OffsetNext(files: seq<InFile>, k: nat)
    requires k < |files| && OffsetFrom(files, DataStart(|files|), |files|) < LIMIT32
    ensures var from := DataStart(|files|);
      OffsetFrom(files, from, k + 1) == OffsetFrom(files, from, k) + |files[k].bytes| < LIMIT32
  {
    OffsetsGrow(files, DataStart(|files|), k + 1, |files|);
  }

  /** The copy loop: reads of up to 4096 bytes until the file is at its end. */
  method AppendFile(out: seq<byte>, bytes: seq<byte>) returns (out': seq<byte>)
    ensures out' == out + bytes
  {
    out' := out;
    var pos := 0;
    while pos < |bytes|
      invariant 0 <= pos <= |bytes| && out' == out + bytes[..pos]
    {
      var bytesRead := if |bytes| - pos < 4096 then |bytes| - pos else 4096;
      out' := out' + bytes[pos..pos + bytesRead];
      assert bytes[..pos] + bytes[pos..pos + bytesRead] == bytes[..pos + bytesRead];
      pos := pos + bytesRead;
    }
    assert bytes[..pos] == bytes;
  }

  lemma {:induction false} OffsetsGrow(files: seq<InFile>, from: nat, j: nat, k: nat)
    requires j <= k <= |files|
    ensures from == OffsetFrom(files, from, 0) <= OffsetFrom(files, from, j) <= OffsetFrom(files, from, k)
    decreases k
  {
    if j < k { OffsetsGrow(files, from, j, k - 1); }
    else if j > 0 { OffsetsGrow(files, from, j - 1, j - 1); }
  }

  // ---- the round trip ----

  lemma SliceOfSum(a: seq<byte>, b: seq<byte>, i: nat, j: nat)
    requires i <= j
    ensures j <= |a| ==> (a + b)[i..j] == a[i..j]
    ensures i == |a| && j == |a| + |b| ==> (a + b)[i..j] == b
  {
  }

  lemma {:induction false} DirEntryAt(files: seq<InFile>, n: nat, k: nat)
    requires k < n <= |files|
    ensures Directory(files, n)[ENTRY_SIZE * k..ENTRY_SIZE * (k + 1)] == DirEntry(files, k)
  {
    hide DirEntry;
    SliceOfSum(Directory(files, n - 1), DirEntry(files, n - 1), ENTRY_SIZE * k, ENTRY_SIZE * (k + 1));
    if k < n - 1 { DirEntryAt(files, n - 1, k); }
  }

  lemma {:induction false} DataAt(files: seq<InFile>, from: nat, n: nat, k: nat)
    requires k < n <= |files|
    ensures |Data(files, n)| == OffsetFrom(files, from, n) - from
    ensures var o := OffsetFrom(files, from, k) - from;
      0 <= o && o + |files[k].bytes| <= |Data(files, n)| && Data(files, n)[o..o + |files[k].bytes|] == files[k].bytes
  {
    DataLength(files, from, n - 1);
    if k < n - 1 {
      DataAt(files, from, n - 1, k);
      var o := OffsetFrom(files, from, k) - from;
      assert Data(files, n)[o..o + |files[k].bytes|] == Data(files, n - 1)[o..o + |files[k].bytes|];
    }
  }

  lemma {:induction false} DataLength(files: seq<InFile>, from: nat, n: nat)
    requires n <= |files|
    ensures |Data(files, n)| == OffsetFrom(files, from, n) - from
  {
    if n > 0 { DataLength(files, from, n - 1); }
  }

  /** A name field reads back as the kept name. */
  lemma FieldReadsBack(img: seq<byte>, at: nat, name: seq<byte>)
    requires NoNul(name) && at + NAME_SIZE <= |img| && img[at..at + NAME_SIZE] == NameField(name)
    ensures CString(img, at) == Kept(name)
  {
    var f := NameField(name);
    assert forall k | 0 <= k < NAME_SIZE :: img[at + k] == img[at..at + NAME_SIZE][k] == f[k];
    CStringIs(img, at, Kept(name));
  }

  lemma {:induction false} CStringIs(img: seq<byte>, at: nat, s: seq<byte>)
    requires NoNul(s) && at + |s| < |img| && img[at + |s|] == 0
    requires forall k | 0 <= k < |s| :: img[at + k] == s[k]
    ensures CString(img, at) == s
    decreases |s|
  {
    if s != [] {
      CStringIs(img, at + 1, s[1..]);
      assert s == [s[0]] + s[1..];
    }
  }

  /** Entry `k` of a packed image says where file `k` is, and file `k` is there. */
  lemma PackedEntry(files: seq<InFile>, k: nat)
    requires Packable(files) && k < |files|
    ensures var img := Image(files);
      && LE(img, 0, 4) == MAGIC && Count(img) == |files|
      && NameOf(img, k) == Kept(BaseName(files[k].path))
      && SizeOf(img, k) == |files[k].bytes|
      && OffsetOf(img, k) + SizeOf(img, k) <= |img|
      && img[OffsetOf(img, k)..OffsetOf(img, k) + SizeOf(img, k)] == files[k].bytes
  {
    hide LE, Word32, NameField, CString, BaseName, Data, Directory, Kept, Image, Header, OffsetFrom, EntryBytes;
    var img := Image(files);
    var n := |files|;
    var off := OffsetFrom(files, DataStart(n), k);
    OffsetNext(files, k);
    OffsetsGrow(files, DataStart(n), n, n);
    HeaderReadsBack(files);
    EntryBytesAt(files, k);
    EntryFields(BaseName(files[k].path), off, |files[k].bytes|);
    var at, e := EntryAt(k), DirEntry(files, k);
    SliceOfSlice(img, at, at + ENTRY_SIZE, e, 0, NAME_SIZE);
    SliceOfSlice(img, at, at + ENTRY_SIZE, e, NAME_SIZE, NAME_SIZE + 4);
    SliceOfSlice(img, at, at + ENTRY_SIZE, e, NAME_SIZE + 4, NAME_SIZE + 8);
    FieldReadsBack(img, EntryAt(k), BaseName(files[k].path));
    Word32RoundTrip(img, EntryAt(k) + NAME_SIZE, off);
    Word32RoundTrip(img, EntryAt(k) + NAME_SIZE + 4, |files[k].bytes|);
    DataInImage(files, k);
  }

  /** The three fields of a directory entry. */
  lemma EntryFields(name: seq<byte>, offset: nat, size: nat)
    ensures EntryBytes(name, offset, size)[0..NAME_SIZE] == NameField(name)
    ensures EntryBytes(name, offset, size)[NAME_SIZE..NAME_SIZE + 4] == Word32(offset)
    ensures EntryBytes(name, offset, size)[NAME_SIZE + 4..NAME_SIZE + 8] == Word32(size)
  {
    hide Word32, NameField;
    var (a, b, c) := (NameField(name), Word32(offset), Word32(size));
    SliceOfSum(a + b, c, NAME_SIZE + 4, NAME_SIZE + 8);
    SliceOfSum(a + b, c, 0, NAME_SIZE);
    SliceOfSum(a + b, c, NAME_SIZE, NAME_SIZE + 4);
    SliceOfSum(a, b, 0, NAME_SIZE);
    SliceOfSum(a, b, NAME_SIZE, NAME_SIZE + 4);
    assert a[0..NAME_SIZE] == a;
  }

  /** A part of a part is a part. */
  lemma SliceOfSlice(s: seq<byte>, i: nat, j: nat, part: seq<byte>, a: nat, b: nat)
    requires i <= j <= |s| && part == s[i..j] && a <= b <= j - i
    ensures s[i + a..i + b] == part[a..b]
  {
    assert forall k | 0 <= k < b - a :: s[i + a..i + b][k] == part[a..b][k];
  }

  lemma DataInImage(files: seq<InFile>, k: nat)
    requires k < |files|
    ensures var (img, off) := (Image(files), OffsetFrom(files, DataStart(|files|), k));
      off + |files[k].bytes| <= |img| && img[off..off + |files[k].bytes|] == files[k].bytes
  {
    hide Word32, Data, Directory, Header, OffsetFrom;
    var n, off := |files|, OffsetFrom(files, DataStart(|files|), k);
    DataAt(files, DataStart(n), n, k);
    assert |Header(n) + Directory(files, n)| == DataStart(n);
    assert Image(files)[off..off + |files[k].bytes|] ==
      Data(files, n)[off - DataStart(n)..off - DataStart(n) + |files[k].bytes|];
  }

  lemma HeaderReadsBack(files: seq<InFile>)
    requires |files| < LIMIT32
    ensures LE(Image(files), 0, 4) == MAGIC && Count(Image(files)) == |files|
  {
    hide LE, Word32, Data, Directory;
    var img := Image(files);
    assert img[0..4] == Header(|files|)[0..4] == Word32(MAGIC);
    assert img[4..8] == Header(|files|)[4..8] == Word32(|files|);
    Word32RoundTrip(img, 0, MAGIC);
    Word32RoundTrip(img, 4, |files|);
  }

  lemma EntryBytesAt(files: seq<InFile>, k: nat)
    requires k < |files|
    ensures EntryAt(k) + ENTRY_SIZE <= DataStart(|files|) <= |Image(files)|
    ensures Image(files)[EntryAt(k)..EntryAt(k) + ENTRY_SIZE] == DirEntry(files, k)
  {
    hide Word32, Data, Directory, DirEntry, Header;
    DirEntryAt(files, |files|, k);
    var d := Directory(files, |files|);
    assert EntryAt(k) + ENTRY_SIZE <= HEADER_SIZE + |d|;
    assert Image(files)[EntryAt(k)..EntryAt(k) + ENTRY_SIZE] == d[ENTRY_SIZE * k..ENTRY_SIZE * (k + 1)];
  }

  /**
    Pack and lookup undo each other: a name is found if and only if it is the kept name of a packed
    file, and then the entry found names that file's bytes in the image.
   */
  lemma PackThenLookup(files: seq<InFile>, name: seq<byte>, r: int)
    requires Packable(files) && IsLookup(Image(files), name, r)
    ensures r == -1 <==> forall k | 0 <= k < |files| :: Kept(BaseName(files[k].path)) != name
    ensures r != -1 ==> var img := Image(files);
      && 0 <= r < |files| && Kept(BaseName(files[r].path)) == name
      && OffsetOf(img, r) + SizeOf(img, r) <= |img|
      && img[OffsetOf(img, r)..OffsetOf(img, r) + SizeOf(img, r)] == files[r].bytes
  {
    hide LE, Image, CString, BaseName, Kept, OffsetOf, SizeOf, NameOf;
    OffsetsGrow(files, DataStart(|files|), |files|, |files|);
    HeaderReadsBack(files);
    forall k: nat | k < |files|
      ensures NameOf(Image(files), k) == Kept(BaseName(files[k].path))
    {
      PackedEntry(files, k);
    }
    if r != -1 { PackedEntry(files, r); }
  }

  /**
    A file whose own name is too long for the field is not found by that name, unless another file is kept
    under it.
   */
  lemma LongNamesAreLost(files: seq<InFile>, k: nat, r: int)
    requires Packable(files) && k < |files| && IsLookup(Image(files), BaseName(files[k].path), r)
    ensures |BaseName(files[k].path)| < NAME_SIZE <==> r == k
  {
    hide LE, Image, CString, BaseName, OffsetOf, SizeOf, NameOf;
    PackThenLookup(files, BaseName(files[k].path), r);
  }

  /** One file, its name exactly as long as the field: packed, and not to be found. */
  lemma ALostName(files: seq<InFile>)
    requires files == [InFile(seq(NAME_SIZE, _ => 97), [])]
    ensures Packable(files) && |BaseName(files[0].path)| == NAME_SIZE
    ensures IsLookup(Image(files), BaseName(files[0].path), -1)
  {
    hide LE, Image, CString, OffsetOf, SizeOf, NameOf;
    var name := files[0].path;
    assert OffsetFrom(files, DataStart(1), 1) == DataStart(1) + |files[0].bytes|;
    BaseNameUnique(name, name, BaseName(name));
    PackedEntry(files, 0);
    assert |Kept(name)| == NAME_SIZE - 1;
  }

  lemma SliceOf(img: seq<byte>, at: nat, bytes: seq<byte>)
    requires at + |bytes| <= |img| && img[at..at + |bytes|] == bytes
    ensures Slice(img, at, |bytes|) == bytes
  {
    forall j | 0 <= j < |bytes| ensures Slice(img, at, |bytes|)[j] == bytes[j] {
      assert img[at..at + |bytes|][j] == img[at + j];
    }
  }

  /**
    Where mkramdisk puts what is known of file `k`: its size at byte 36 of entry `k`, and at byte 32 where
    its bytes are.
   */
  lemma EntryOnDisk(files: seq<InFile>, k: nat)
    requires Packable(files) && k < |files|
    ensures var (img, entry) := (Image(files), 8 + 40 * k);
      && LE(img, 4, 4) == |files| && LE(img, entry + 36, 4) == |files[k].bytes|
      && Slice(img, LE(img, entry + 32, 4), |files[k].bytes|) == files[k].bytes
      && CString(img, entry) == Kept(BaseName(files[k].path))
  {
    hide Image, LE, Packable, CString, Kept, BaseName;
    PackedEntry(files, k);
    SliceOf(Image(files), OffsetOf(Image(files), k), files[k].bytes);
  }

  // ---- reading a file in pieces ----

  /** One SYS_READ of a RAMDISK file at `offset` of `size` bytes: how many bytes it delivers. */
  function ReadSize(offset: nat, size: nat, want: nat): (n: nat)
    requires offset <= size
    ensures offset + n <= size && n <= want
  {
    if want > size - offset then size - offset else want
  }

  /** The bytes successive reads deliver, one after another. */
  function Reads(bytes: seq<byte>, offset: nat, wants: seq<nat>): seq<byte>
    requires offset <= |bytes|
    decreases |wants|
  {
    if wants == [] then []
    else
      var n := ReadSize(offset, |bytes|, wants[0]);
      bytes[offset..offset + n] + Reads(bytes, offset + n, wants[1..])
  }

  function Sum(wants: seq<nat>): nat
    decreases |wants|
  {
    if wants == [] then 0 else wants[0] + Sum(wants[1..])
  }

  lemma SliceJoin(s: seq<byte>, i: nat, j: nat, k: nat)
    requires i <= j <= k <= |s|
    ensures s[i..j] + s[j..k] == s[i..k]
  {
  }

  lemma ReadSizeAdds(offset: nat, size: nat, w: nat, rest: nat)
    requires offset <= size
    ensures var n := ReadSize(offset, size, w);
      n + ReadSize(offset + n, size, rest) == ReadSize(offset, size, w + rest)
  {
  }

  lemma ReadsUnfold(bytes: seq<byte>, offset: nat, wants: seq<nat>)
    requires offset <= |bytes| && wants != []
    ensures var n := ReadSize(offset, |bytes|, wants[0]);
      && Reads(bytes, offset, wants) == bytes[offset..offset + n] + Reads(bytes, offset + n, wants[1..])
      && Sum(wants) == wants[0] + Sum(wants[1..])
  {
  }

  /**
    Whatever sizes are asked for, reads deliver the file's bytes in order, and all of them once enough were
    asked for.
   */
  lemma {:induction false} ReadsConcatenate(bytes: seq<byte>, offset: nat, wants: seq<nat>)
    requires offset <= |bytes|
    ensures Reads(bytes, offset, wants) == bytes[offset..offset + ReadSize(offset, |bytes|, Sum(wants))]
    decreases |wants|
  {
    if wants == [] { return; }
    hide ReadSize, Reads, Sum;
    var n := ReadSize(offset, |bytes|, wants[0]);
    ReadsUnfold(bytes, offset, wants);
    ReadsConcatenate(bytes, offset + n, wants[1..]);
    ReadSizeAdds(offset, |bytes|, wants[0], Sum(wants[1..]));
    assert Reads(bytes, offset + n, wants[1..]) == bytes[offset + n..offset + ReadSize(offset, |bytes|, Sum(wants))];
    SliceJoin(bytes, offset, offset + n, offset + ReadSize(offset, |bytes|, Sum(wants)));
  }
}
