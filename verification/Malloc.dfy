/** The first-fit allocator of kernel/user/syscalls.c, over SYS_SBRK. */
module Malloc {
  import opened Sv39

  const META_SIZE := 24

  // errno.h, as the register holds it converted to a pointer difference
  const E_NOMEM := -4
  const E_PERM := -5

  /** block_meta_t; a null `next` is 0. */
  datatype Block = Block(size: nat, next: nat, isFree: bool)

  type Headers = map<nat, Block>

  /** Header and payload of the block at `a` end here. */
  function End(meta: Headers, a: nat): nat
    requires a in meta
  {
    a + META_SIZE + meta[a].size
  }

  predicate Fits(meta: Headers, a: nat, size: nat)
    requires a in meta
  {
    meta[a].isFree && meta[a].size >= size
  }

  ghost predicate InList(chain: seq<nat>, a: nat) { exists i {:trigger chain[i]} :: 0 <= i < |chain| && chain[i] == a }

  /** None of the first `n` blocks can serve the request. */
  ghost predicate NoneFits(meta: Headers, chain: seq<nat>, n: nat, size: nat) {
    n <= |chain| && forall i {:trigger chain[i]} | 0 <= i < n :: chain[i] in meta && !Fits(meta, chain[i], size)
  }

  /** From `first`, the list runs through `chain`, and nowhere else are there headers. */
  ghost predicate Linked(first: nat, meta: Headers, chain: seq<nat>) {
    && first == (if chain == [] then 0 else chain[0])
    && (forall a {:trigger InList(chain, a)} | a in meta :: InList(chain, a))
    && forall i {:trigger chain[i]} | 0 <= i < |chain| ::
         chain[i] > 0 && chain[i] in meta && meta[chain[i]].next == if i + 1 < |chain| then chain[i + 1] else 0
  }

  /** Blocks lie in list order one above the other, below the break. */
  ghost predicate Stacked(meta: Headers, chain: seq<nat>, brk: nat) {
    && (forall i {:trigger chain[i]} | 0 <= i < |chain| :: chain[i] in meta && End(meta, chain[i]) <= brk)
    && forall i, j {:trigger chain[i], chain[j]} | 0 <= i < j < |chain| :: End(meta, chain[i]) <= chain[j]
  }

  /** No two blocks, headers included, share a byte. */
  ghost predicate Apart(meta: Headers) {
    forall a, b {:trigger End(meta, a), End(meta, b)} | a in meta && b in meta && a != b ::
      End(meta, a) <= b || End(meta, b) <= a
  }

  lemma StackedIsApart(first: nat, meta: Headers, chain: seq<nat>, brk: nat)
    requires Linked(first, meta, chain) && Stacked(meta, chain, brk)
    ensures Apart(meta)
  {
    forall a, b {:trigger End(meta, a), End(meta, b)} | a in meta && b in meta && a != b
      ensures End(meta, a) <= b || End(meta, b) <= a
    {
      assert InList(chain, a) && InList(chain, b);
      var i :| 0 <= i < |chain| && chain[i] == a;
      var j :| 0 <= j < |chain| && chain[j] == b;
      assert i < j || j < i;
    }
  }

  /** Marking a block free or not changes nothing else. */
  lemma Marked(first: nat, meta: Headers, chain: seq<nat>, brk: nat, a: nat, isFree: bool)
    requires Linked(first, meta, chain) && Stacked(meta, chain, brk) && a in meta
    ensures var meta' := meta[a := meta[a].(isFree := isFree)];
      Linked(first, meta', chain) && Stacked(meta', chain, brk)
  {
    hide InList;
    var meta' := meta[a := meta[a].(isFree := isFree)];
    assert forall b {:trigger End(meta', b)} | b in meta :: End(meta', b) == End(meta, b);
  }

  class Heap {
    var globalBase: nat
    var meta: Headers         // the block headers in the program's memory
    var brk: nat              // what sbrk(0) would return
    const max: nat            // heap_max
    ghost var chain: seq<nat>

    ghost predicate Valid()
      reads this
    {
      brk > 0 && Linked(globalBase, meta, chain) && Stacked(meta, chain, brk)
    }

    constructor (start: nat, limit: nat)
      requires start > 0
      ensures Valid() && meta == map[] && chain == [] && brk == start && max == limit
    {
      globalBase, meta, brk, chain, max := 0, map[], start, [], limit;
    }

    /** When SYS_SBRK refuses a growth; `frames` says whether the kernel has the frames for it. */
    predicate Refuses(from: nat, increment: int, frames: bool) {
      increment < 0 || (increment > 0 && (from + increment > max || !frames))
    }

    /** sbrk, which the program may also call itself. */
    method Sbrk(increment: int, frames: bool) returns (r: int)
      requires Valid()
      modifies `brk
      ensures Valid()
      ensures if Refuses(old(brk), increment, frames) then r < -1 && brk == old(brk)
              else r == old(brk) && brk == old(brk) + increment
    {
      r := brk;
      if increment == 0 { return; }
      if increment < 0 { return E_PERM; }
      if brk + increment > max || !frames { return E_NOMEM; }
      brk := brk + increment;
    }

    /**
      find_free_block: the first block of the list that is free and big enough; otherwise 0 and the end of
      the list.
     */
    method FindFreeBlock(size: nat) returns (block: nat, last: nat, ghost at: nat)
      requires Valid()
      ensures at <= |chain| && NoneFits(meta, chain, at, size)
      ensures if block == 0 then at == |chain|
              else at < |chain| && chain[at] == block && FirstFit(meta, chain, size, block)
      ensures last == if at == 0 then 0 else chain[at - 1]
    {
      hide InList, Stacked;
      block, last, at := globalBase, 0, 0;
      while block != 0
        invariant at <= |chain| && block == (if at < |chain| then chain[at] else 0)
        invariant last == if at == 0 then 0 else chain[at - 1]
        invariant NoneFits(meta, chain, at, size)
        decreases |chain| - at
      {
        assert chain[at] in meta;
        if meta[block].isFree && meta[block].size >= size { return; }
        last := block;
        block := meta[block].next;
        at := at + 1;
      }
    }

    /**
      malloc. A request is served from the first free block that is big enough, and only without
      one from fresh memory at the break. The payload lies below the break, shares no byte with any
      other block or header, and no other block changes its place, size or state.

      It never returns null for want of memory: a failed sbrk is -4 or -5, the test is for -1, and
      the program `faults` on the header it then stores there. And the heap stays in order exactly
      for requests that with the header fit the int sbrk takes, or need no fresh memory: the block
      of a longer one that does not fault reaches past the break. `slack` says whether a header that
      begins at the break, when the break did not move past it, lies on a mapped page all the same.
     */
    method Malloc(size: Word, frames: bool, slack: bool) returns (p: nat, faults: bool)
      requires Valid()
      modifies this
      ensures size == 0 || faults ==> p == 0 && meta == old(meta) && chain == old(chain)
      ensures size == 0 || (faults && Refuses(old(brk), Increment(size), frames)) ==> brk == old(brk)
      ensures faults <==>
        size > 0 && NoneFits(old(meta), old(chain), |old(chain)|, size)
        && (Refuses(old(brk), Increment(size), frames) || (Increment(size) < META_SIZE && !slack))
      ensures size > 0 && !faults ==> Served(old(meta), old(chain), old(brk), size, p)
      ensures Valid() <==>
        size == 0 || faults || !NoneFits(old(meta), old(chain), |old(chain)|, size) || META_SIZE + size < 0x8000_0000
    {
      hide Linked, Stacked, InList, NoneFits, Apart;
      p, faults := 0, false;
      if size == 0 { return; }
      var block, last;
      ghost var at;
      block, last, at := FindFreeBlock(size);
      if block != 0 {
        Reuse(block);
        p := block + META_SIZE;
        Reused(globalBase, old(meta), meta, chain, brk, at, size);
      } else {
        var newBlock := Fresh(size, frames, slack);
        BelowTheBreak(meta, chain, old(brk), brk);
        if newBlock == 0 { faults := true; return; }
        Append(newBlock, last, size);
        p := newBlock + META_SIZE;
        Appended(old(globalBase), old(meta), globalBase, meta, old(chain), newBlock, size);
        PastTheBreak(meta, chain, brk, |chain| - 1);
        BelowTheBreak(meta, chain, newBlock + META_SIZE + size, brk);
      }
    }

    /** The call of sbrk, the test of its result, and the first store to the new header; 0 where that faults. */
    method Fresh(size: Word, frames: bool, slack: bool) returns (newBlock: nat)
      requires Valid() && size > 0
      modifies `brk
      ensures newBlock == 0 <==> Refuses(old(brk), Increment(size), frames) || (Increment(size) < META_SIZE && !slack)
      ensures brk == old(brk) + (if Refuses(old(brk), Increment(size), frames) then 0 else Increment(size))
      ensures newBlock != 0 ==> newBlock == old(brk)
    {
      hide Linked, Stacked;
      IncrementIs(size);
      var r := Sbrk(Increment(size), frames);
      assert r != -1;                            // the test for failure never holds
      if r < 0 { return 0; }
      newBlock := if Increment(size) < META_SIZE && !slack then 0 else r;
    }

    /** block->is_free = 0 */
    method Reuse(block: nat)
      requires Valid() && block in meta && meta[block].isFree
      modifies `meta
      ensures Valid() && meta == old(meta)[block := old(meta)[block].(isFree := false)]
    {
      hide Linked, Stacked;
      Marked(globalBase, meta, chain, brk, block, false);
      meta := meta[block := meta[block].(isFree := false)];
    }

    /** The header of a block at the old break, linked at the end of the list. */
    method Append(newBlock: nat, last: nat, size: nat)
      requires newBlock > 0
      requires Linked(globalBase, meta, chain) && Stacked(meta, chain, newBlock)
      requires last == if chain == [] then 0 else chain[|chain| - 1]
      modifies `meta, `globalBase, `chain
      ensures Linked(globalBase, meta, chain) && Stacked(meta, chain, newBlock + META_SIZE + size)
      ensures chain == old(chain) + [newBlock] && newBlock !in old(meta)
      ensures meta == WithBlock(old(meta), old(chain), newBlock, size)
    {
      hide InList;
      NotYetThere(globalBase, meta, chain, newBlock);
      AppendKeeps(globalBase, meta, chain, newBlock, size);
      meta := meta[newBlock := Block(size, 0, false)];
      if last != 0 {
        meta := meta[last := meta[last].(next := newBlock)];
      } else {
        globalBase := newBlock;
      }
      chain := chain + [newBlock];
    }

    /** free: the block's memory may be handed out again. */
    method Free(p: nat)
      requires Valid() && (p != 0 ==> p >= META_SIZE && p - META_SIZE in meta)
      modifies `meta
      ensures Valid()
      ensures meta ==
        if p == 0 then old(meta) else old(meta)[p - META_SIZE := old(meta)[p - META_SIZE].(isFree := true)]
    {
      hide Linked, Stacked;
      if p == 0 { return; }
      Marked(globalBase, meta, chain, brk, p - META_SIZE, true);
      meta := meta[p - META_SIZE := meta[p - META_SIZE].(isFree := true)];
    }

    /** The block at `p - META_SIZE` serves a request that came when the heap was `meta0`, `chain0`, `brk0`. */
    ghost predicate Served(meta0: Headers, chain0: seq<nat>, brk0: nat, size: Word, p: nat)
      reads this
    {
      p >= META_SIZE && Holds(meta0, meta, p - META_SIZE, size) &&
      if NoneFits(meta0, chain0, |chain0|, size) then
        p - META_SIZE == brk0 && brk0 !in meta0 && meta[brk0].size == size && brk == brk0 + Increment(size)
      else
        brk == brk0 && FirstFit(meta0, chain0, size, p - META_SIZE)
    }
  }

  /** Block `a` is live and big enough, apart from every other block; the others keep place, size and state. */
  ghost predicate Holds(meta0: Headers, meta: Headers, a: nat, size: nat) {
    && a in meta && !meta[a].isFree && meta[a].size >= size && Apart(meta)
    && (forall b | b in meta && b != a :: b in meta0)
    && forall b | b in meta0 && b != a ::
         b in meta && meta[b].size == meta0[b].size && meta[b].isFree == meta0[b].isFree
  }

  ghost predicate FirstFit(meta: Headers, chain: seq<nat>, size: nat, a: nat) {
    && a in meta && Fits(meta, a, size)
    && exists i {:trigger chain[i]} :: 0 <= i < |chain| && chain[i] == a && NoneFits(meta, chain, i, size)
  }

  /** The headers with a new one for `b`, linked from the last of `chain`. */
  function WithBlock(meta: Headers, chain: seq<nat>, b: nat, size: nat): Headers {
    var meta1 := meta[b := Block(size, 0, false)];
    if chain == [] || chain[|chain| - 1] !in meta1 then meta1
    else meta1[chain[|chain| - 1] := meta1[chain[|chain| - 1]].(next := b)]
  }

  /** The size of header and payload, as a size_t and then converted to an int. */
  function Increment(size: Word): int {
    var low := (META_SIZE + size) % WORD_LIMIT % 0x1_0000_0000;
    if low < 0x8000_0000 then low else low - 0x1_0000_0000
  }

  lemma IncrementIs(size: Word)
    ensures Increment(size) < 0x8000_0000
    ensures META_SIZE + size < 0x8000_0000 ==> Increment(size) == META_SIZE + size
  {
  }

  /** A block that ends above the break is not stacked below it. */
  lemma PastTheBreak(meta: Headers, chain: seq<nat>, brk: nat, i: nat)
    requires i < |chain| && chain[i] in meta
    ensures End(meta, chain[i]) > brk ==> !Stacked(meta, chain, brk)
  {
  }

  lemma BelowTheBreak(meta: Headers, chain: seq<nat>, end: nat, brk: nat)
    requires Stacked(meta, chain, end)
    ensures end <= brk ==> Stacked(meta, chain, brk)
  {
  }

  lemma NotYetThere(first: nat, meta: Headers, chain: seq<nat>, b: nat)
    requires Linked(first, meta, chain) && Stacked(meta, chain, b)
    ensures b !in meta
  {
    forall a | a in meta ensures a < b {
      assert InList(chain, a);
      var i :| 0 <= i < |chain| && chain[i] == a;
      assert End(meta, chain[i]) <= b;
    }
  }

  lemma AppendKeeps(first: nat, meta: Headers, chain: seq<nat>, b: nat, size: nat)
    requires Linked(first, meta, chain) && Stacked(meta, chain, b) && b > 0 && b !in meta
    ensures var meta' := WithBlock(meta, chain, b, size);
      && Linked(if chain == [] then b else first, meta', chain + [b])
      && Stacked(meta', chain + [b], b + META_SIZE + size)
  {
    var meta', chain' := WithBlock(meta, chain, b, size), chain + [b];
    assert forall a {:trigger End(meta', a)} | a in meta :: a in meta' && End(meta', a) == End(meta, a);
    forall a {:trigger InList(chain', a)} | a in meta' ensures InList(chain', a) {
      if a == b {
        assert chain'[|chain|] == b;
      } else {
        assert InList(chain, a);
        var i :| 0 <= i < |chain| && chain[i] == a;
        assert chain'[i] == a;
      }
    }
    forall i {:trigger chain'[i]} | 0 <= i < |chain'|
      ensures chain'[i] in meta' && meta'[chain'[i]].next == if i + 1 < |chain'| then chain'[i + 1] else 0
      ensures End(meta', chain'[i]) <= b + META_SIZE + size
    {
      if i < |chain| {
        assert chain'[i] == chain[i];
        if i < |chain| - 1 { assert End(meta, chain[i]) <= chain[|chain| - 1] && chain'[i + 1] == chain[i + 1]; }
      }
    }
    forall i, j {:trigger chain'[i], chain'[j]} | 0 <= i < j < |chain'| ensures End(meta', chain'[i]) <= chain'[j] {
      assert chain'[i] == chain[i] && (j < |chain| ==> chain'[j] == chain[j]);
    }
  }

  lemma Reused(first: nat, meta0: Headers, meta: Headers, chain: seq<nat>, brk: nat, at: nat, size: nat)
    requires Linked(first, meta, chain) && Stacked(meta, chain, brk) && at < |chain| && NoneFits(meta0, chain, at, size)
    requires chain[at] in meta0 && Fits(meta0, chain[at], size)
    requires meta == meta0[chain[at] := meta0[chain[at]].(isFree := false)]
    ensures Holds(meta0, meta, chain[at], size) && FirstFit(meta0, chain, size, chain[at])
    ensures !NoneFits(meta0, chain, |chain|, size)
  {
    hide Apart, Linked, Stacked, InList;
    StackedIsApart(first, meta, chain, brk);
  }

  lemma Appended(first0: nat, meta0: Headers, first: nat, meta: Headers, chain: seq<nat>, b: nat, size: nat)
    requires Linked(first0, meta0, chain) && b !in meta0 && meta == WithBlock(meta0, chain, b, size)
    requires Linked(first, meta, chain + [b]) && Stacked(meta, chain + [b], b + META_SIZE + size)
    ensures Holds(meta0, meta, b, size) && meta[b].size == size
  {
    hide Apart, InList, Stacked;
    if chain != [] { assert chain[|chain| - 1] in meta0; }
    StackedIsApart(first, meta, chain + [b], b + META_SIZE + size);
  }

  /**
    Such a longer request, the first of a program: 2^32 + 8 bytes. The break moves by 32, and the block
    that is returned ends 2^32 bytes above it.
   */
  method LongRequest(start: nat, limit: nat, slack: bool) returns (h: Heap, p: nat)
    requires 0 < start && start + 32 <= limit
    ensures fresh(h) && !h.Valid() && p == start + META_SIZE && h.brk == start + 32
    ensures start in h.meta && End(h.meta, start) == h.brk + 0x1_0000_0000
  {
    hide Linked, Stacked, Apart, InList;
    h := new Heap(start, limit);
    var faults;
    p, faults := h.Malloc(0x1_0000_0008, true, slack);
  }
}
