/** Byte sequences as C code reads them. */
module Bytes {
  import opened Sv39

  /** Reading past the end of the image gives whatever follows; zero stands for it. */
  function ByteAt(img: seq<byte>, i: nat): byte { if i < |img| then img[i] else 0 }

  /** The little-endian number in `n` bytes. */
  function LE(img: seq<byte>, at: nat, n: nat): nat
    decreases n
  {
    if n == 0 then 0 else (ByteAt(img, at) as nat) + 256 * LE(img, at + 1, n - 1)
  }

  /** The lowest byte comes first. */
  lemma LittleEndian(img: seq<byte>, at: nat)
    requires at + 8 <= |img|
    ensures LE(img, at, 2) == img[at] as nat + 0x100 * (img[at + 1] as nat)
    ensures LE(img, at, 4) ==
      img[at] as nat + 0x100 * (img[at + 1] as nat) + 0x1_0000 * (img[at + 2] as nat) +
        0x100_0000 * (img[at + 3] as nat)
    ensures LE(img, at, 8) == LE(img, at, 4) + 0x1_0000_0000 * LE(img, at + 4, 4)
  {
    Bytes4(img, at);
    Bytes4(img, at + 4);
    assert LE(img, at + 1, 1) == img[at + 1] as nat;
    assert LE(img, at + 3, 5) == img[at + 3] as nat + 0x100 * LE(img, at + 4, 4);
    assert LE(img, at + 2, 6) == img[at + 2] as nat + 0x100 * LE(img, at + 3, 5);
    assert LE(img, at + 1, 7) == img[at + 1] as nat + 0x100 * LE(img, at + 2, 6);
  }

  lemma Bytes4(img: seq<byte>, at: nat)
    requires at + 4 <= |img|
    ensures LE(img, at, 4) ==
      img[at] as nat + 0x100 * (img[at + 1] as nat) + 0x1_0000 * (img[at + 2] as nat) +
        0x100_0000 * (img[at + 3] as nat)
  {
    assert LE(img, at + 3, 1) == img[at + 3] as nat;
    assert LE(img, at + 2, 2) == img[at + 2] as nat + 0x100 * LE(img, at + 3, 1);
    assert LE(img, at + 1, 3) == img[at + 1] as nat + 0x100 * LE(img, at + 2, 2);
  }

  lemma Word64Bound(img: seq<byte>, at: nat)
    ensures LE(img, at, 8) < WORD_LIMIT
  {
    hide ByteAt;
    assert LE(img, at + 6, 2) == ByteAt(img, at + 6) as nat + 256 * LE(img, at + 7, 1) < 0x1_0000;
    assert LE(img, at + 4, 4) < 0x1_0000_0000 by {
      assert LE(img, at + 5, 3) == ByteAt(img, at + 5) as nat + 256 * LE(img, at + 6, 2);
      assert LE(img, at + 4, 4) == ByteAt(img, at + 4) as nat + 256 * LE(img, at + 5, 3);
    }
    assert LE(img, at + 2, 6) < 0x1_0000_0000_0000 by {
      assert LE(img, at + 3, 5) == ByteAt(img, at + 3) as nat + 256 * LE(img, at + 4, 4);
      assert LE(img, at + 2, 6) == ByteAt(img, at + 2) as nat + 256 * LE(img, at + 3, 5);
    }
    assert LE(img, at + 1, 7) == ByteAt(img, at + 1) as nat + 256 * LE(img, at + 2, 6);
    assert LE(img, at, 8) == ByteAt(img, at) as nat + 256 * LE(img, at + 1, 7);
  }

  function Slice(img: seq<byte>, from: nat, n: nat): (s: seq<byte>)
    ensures |s| == n && forall j | 0 <= j < n :: s[j] == ByteAt(img, from + j)
  {
    seq(n, j requires 0 <= j => ByteAt(img, from + j))
  }

  /** A uint32_t as it is written to a file. */
  function Word32(n: nat): (s: seq<byte>)
    ensures |s| == 4
  {
    [(n % 256) as byte, (n / 256 % 256) as byte, (n / 0x1_0000 % 256) as byte, (n / 0x100_0000 % 256) as byte]
  }

  lemma LowByte(a: nat, b: nat)
    ensures (a + 256 * b) % 256 == a % 256
  {
  }

  lemma Word32Wraps(n: nat)
    ensures Word32(n % 0x1_0000_0000) == Word32(n)
  {
    var m, q := n % 0x1_0000_0000, n / 0x1_0000_0000;
    LowByte(m, 0x100_0000 * q);
    LowByte(m / 256, 0x1_0000 * q);
    LowByte(m / 0x1_0000, 256 * q);
    LowByte(m / 0x100_0000, q);
    assert n == m + 0x1_0000_0000 * q;
    assert n / 256 == m / 256 + 0x100_0000 * q;
    assert n / 0x1_0000 == m / 0x1_0000 + 0x1_0000 * q;
    assert n / 0x100_0000 == m / 0x100_0000 + 256 * q;
  }

  /** Reading back a written uint32_t. */
  lemma Word32RoundTrip(img: seq<byte>, at: nat, n: nat)
    requires n < 0x1_0000_0000 && at + 4 <= |img| && img[at..at + 4] == Word32(n)
    ensures LE(img, at, 4) == n
  {
    var s := img[at..at + 4];
    assert img[at] == s[0] && img[at + 1] == s[1] && img[at + 2] == s[2] && img[at + 3] == s[3];
    assert LE(img, at + 3, 1) == s[3] as nat;
    assert LE(img, at + 2, 2) == s[2] as nat + 256 * (s[3] as nat);
    assert LE(img, at + 1, 3) == s[1] as nat + 256 * (s[2] as nat + 256 * (s[3] as nat));
    Digits(n);
  }

  lemma Digits(n: nat)
    requires n < 0x1_0000_0000
    ensures n == n % 256 + 256 * (n / 256 % 256 + 256 * (n / 0x1_0000 % 256 + 256 * (n / 0x100_0000 % 256)))
  {
  }

  /** A uint64_t as it is written to a file. */
  function Word64(n: nat): (s: seq<byte>)
    ensures |s| == 8
  {
    Word32(n % 0x1_0000_0000) + Word32(n / 0x1_0000_0000)
  }

  lemma Word64RoundTrip(img: seq<byte>, at: nat, n: nat)
    requires n < WORD_LIMIT && at + 8 <= |img| && img[at..at + 8] == Word64(n)
    ensures LE(img, at, 8) == n
  {
    hide Word32, LE;
    var lo, hi := n % 0x1_0000_0000, n / 0x1_0000_0000;
    assert img[at..at + 4] == img[at..at + 8][..4] == Word32(lo);
    assert img[at + 4..at + 8] == img[at..at + 8][4..] == Word32(hi);
    Word32RoundTrip(img, at, lo);
    Word32RoundTrip(img, at + 4, hi);
    LittleEndian(img, at);
  }
}
