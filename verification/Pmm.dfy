/** The bitmap frame allocator of kernel/mm/pmm.c. */
module Pmm {
  import opened Sv39

  predicate BitSet(b: bv8, k: nat)
    requires k < 8
  {
    b & (1 << k) != 0
  }

  /** The byte with only bit k set. */
  function Mask(k: nat): (m: bv8)
    requires k < 8
    ensures m == 1 << k
  {
    match k
    case 0 => 1 case 1 => 2 case 2 => 4 case 3 => 8
    case 4 => 16 case 5 => 32 case 6 => 64 case 7 => 128
  }

  function SetBit(b: bv8, k: nat): bv8
    requires k < 8
  {
    b | (1 << k)
  }

  function ClearBit(b: bv8, k: nat): bv8
    requires k < 8
  {
    b & !(1 << k)
  }

  lemma BitOps(b: bv8, k: nat, j: nat)
    requires k < 8 && j < 8
    ensures BitSet(SetBit(b, k), j) == (j == k || BitSet(b, j))
    ensures BitSet(ClearBit(b, k), j) == (j != k && BitSet(b, j))
  {
    assert Mask(k) == 1 << k && Mask(j) == 1 << j;
  }

  predicate Busy(bm: seq<bv8>, i: nat)
    requires |bm| == TOTAL_PAGES / 8 && i < TOTAL_PAGES
  {
    BitSet(bm[i / 8], i % 8)
  }

  /** The frames a bitmap marks in use. */
  ghost function UsedIn(bm: seq<bv8>): set<nat>
    requires |bm| == TOTAL_PAGES / 8
  {
    set i: nat | i < TOTAL_PAGES && Busy(bm, i)
  }

  lemma BitIsUsed(bm: seq<bv8>, i: nat)
    requires |bm| == TOTAL_PAGES / 8 && i < TOTAL_PAGES
    ensures i in UsedIn(bm) <==> BitSet(bm[i / 8], i % 8)
  {
    hide BitSet;
  }

  lemma OneBitAt(bm: seq<bv8>, i: nat, j: nat)
    requires |bm| == TOTAL_PAGES / 8 && i < TOTAL_PAGES && j < TOTAL_PAGES
    ensures Busy(bm[i / 8 := SetBit(bm[i / 8], i % 8)], j) == (j == i || Busy(bm, j))
    ensures Busy(bm[i / 8 := ClearBit(bm[i / 8], i % 8)], j) == (j != i && Busy(bm, j))
  {
    hide SetBit, ClearBit, BitSet;
    BitOps(bm[i / 8], i % 8, j % 8);
  }

  /** Setting or clearing one bit adds or removes exactly that frame. */
  lemma OneBit(bm: seq<bv8>, i: nat)
    requires |bm| == TOTAL_PAGES / 8 && i < TOTAL_PAGES
    ensures UsedIn(bm[i / 8 := SetBit(bm[i / 8], i % 8)]) == UsedIn(bm) + {i}
    ensures UsedIn(bm[i / 8 := ClearBit(bm[i / 8], i % 8)]) == UsedIn(bm) - {i}
  {
    hide SetBit, ClearBit, BitSet, Busy;
    forall j: nat | j < TOTAL_PAGES
      ensures Busy(bm[i / 8 := SetBit(bm[i / 8], i % 8)], j) == (j == i || Busy(bm, j))
      ensures Busy(bm[i / 8 := ClearBit(bm[i / 8], i % 8)], j) == (j != i && Busy(bm, j))
    {
      OneBitAt(bm, i, j);
    }
  }

  class FrameAllocator {
    const bitmap: array<bv8>

    ghost predicate Valid() { bitmap.Length == TOTAL_PAGES / 8 }

    ghost function Used(): set<nat>
      requires Valid()
      reads bitmap
    {
      UsedIn(bitmap[..])
    }

    /** init_pmm: everything below the end of the bitmap, which sits at `end`, is protected. */
    constructor (end: nat)
      requires PHYSICAL_RAM_START <= end && end % PAGE_SIZE == 0
      requires end + TOTAL_PAGES / 8 <= PHYSICAL_RAM_START + TOTAL_PAGES * PAGE_SIZE
      ensures Valid() && fresh(bitmap)
      ensures forall i: nat :: i in Used() <==> i < (end - PHYSICAL_RAM_START) / PAGE_SIZE + 1
    {
      bitmap := new bv8[TOTAL_PAGES / 8];
      new;
      for i := 0 to bitmap.Length
        invariant forall j | 0 <= j < i :: bitmap[j] == 0
      {
        bitmap[i] := 0;
      }
      var protectedSpace := end + bitmap.Length;
      var pagesToProtect := (protectedSpace - PHYSICAL_RAM_START) / PAGE_SIZE;
      assert forall i: nat | i < TOTAL_PAGES :: !Busy(bitmap[..], i);
      for i := 0 to pagesToProtect
        invariant forall j: nat :: j in UsedIn(bitmap[..]) <==> j < i
      {
        ghost var was := bitmap[..];
        OneBit(was, i);
        bitmap[i / 8] := SetBit(bitmap[i / 8], i % 8);
        assert bitmap[..] == was[i / 8 := SetBit(was[i / 8], i % 8)];
      }
    }

    /** pmm_alloc_page: the address of the lowest free frame, now in use; 0 when there is none. */
    method AllocPage() returns (pa: nat)
      requires Valid()
      modifies bitmap
      ensures pa == 0 ==> Used() == old(Used()) && forall i: nat | i < TOTAL_PAGES :: i in Used()
      ensures pa != 0 ==> IsFrameAddr(pa) && FrameIndex(pa) !in old(Used())
      ensures pa != 0 ==> Used() == old(Used()) + {FrameIndex(pa)}
      ensures pa != 0 ==> forall i: nat | i < FrameIndex(pa) :: i in old(Used())
    {
      hide UsedIn, Busy, SetBit, BitSet;
      for i := 0 to TOTAL_PAGES
        invariant bitmap[..] == old(bitmap[..])
        invariant forall j: nat | j < i :: j in old(Used())
      {
        BitIsUsed(bitmap[..], i);
        if !BitSet(bitmap[i / 8], i % 8) {
          OneBit(bitmap[..], i);
          bitmap[i / 8] := SetBit(bitmap[i / 8], i % 8);
          assert bitmap[..] == old(bitmap[..])[i / 8 := SetBit(old(bitmap[i / 8]), i % 8)];
          AddrIndex(i);
          return FrameAddr(i);
        }
      }
      return 0;
    }

    /** pmm_free_page: ignores an address outside RAM or not on a page boundary. */
    method FreePage(pa: nat)
      requires Valid()
      modifies bitmap
      ensures Used() == if IsFrameAddr(pa) then old(Used()) - {FrameIndex(pa)} else old(Used())
    {
      if pa < PHYSICAL_RAM_START || pa >= PHYSICAL_RAM_START + TOTAL_PAGES * PAGE_SIZE { return; }
      if pa % PAGE_SIZE != 0 { return; }
      var index := (pa - PHYSICAL_RAM_START) / PAGE_SIZE;
      OneBit(bitmap[..], index);
      bitmap[index / 8] := ClearBit(bitmap[index / 8], index % 8);
      assert bitmap[..] == old(bitmap[..])[index / 8 := ClearBit(old(bitmap[index / 8]), index % 8)];
    }
  }
}
