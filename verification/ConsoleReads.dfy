/** The console arm of SYS_READ once there is input: at most one line from the ring to the program's buffer. */
module ConsoleReads {
  import opened Sv39
  import opened PageTrees
  import opened Vmm
  import opened Mmu
  import opened UserMem
  import opened Console
  import Uart

  /** What one read of up to `size` bytes delivers: through the first newline, or as much as fits. */
  function LineFor(unread: seq<byte>, size: nat): (l: seq<byte>)
    ensures l <= unread && |l| <= size
  {
    if |FirstLine(unread)| <= size then FirstLine(unread) else unread[..size]
  }

  /** What is typed at an empty line with nothing unread is what the next read delivers. */
  lemma TypedIsRead(e: Editor, s: seq<byte>, enter: byte, size: nat)
    requires e.Ok() && e.esc == Normal && e.line == [] && e.Unread() == [] && |s| < RX_SIZE
    requires IsText(s) && (enter == 10 || enter == 13)
    ensures var e' := Feed(e, s + [enter]);
      && e'.taken == e.taken <= |e'.committed| && e'.Unread() == s + [10]
      && LineFor(e'.Unread(), size) == if size <= |s| then s[..size] else s + [10]
  {
    hide Feed, FirstLine;
    LineIsTyped(e, s, enter);
    assert e.committed[..e.taken] == e.committed && e.committed + [] == e.committed;
    assert (e.committed + s + [10])[e.taken..] == s + [10];
    assert s + [10] + [] == s + [10];
    OneLineAtATime(s, [], size);
  }

  /** However many lines are waiting, a read delivers of the first one as much as it asks for. */
  lemma OneLineAtATime(s: seq<byte>, more: seq<byte>, size: nat)
    requires forall k | 0 <= k < |s| :: s[k] != 10
    ensures LineFor(s + [10] + more, size) == if size <= |s| then s[..size] else s + [10]
  {
    hide FirstLine;
    OneLine(s, more);
  }

  lemma {:induction false} OneLine(s: seq<byte>, more: seq<byte>)
    requires forall k | 0 <= k < |s| :: s[k] != 10
    ensures FirstLine(s + [10] + more) == s + [10]
    decreases |s|
  {
    if s != [] {
      assert (s + [10] + more)[1..] == s[1..] + [10] + more;
      OneLine(s[1..], more);
    }
  }

  /** While no newline came, the line is not yet over; a newline ends it. */
  lemma {:induction false} LineSoFar(s: seq<byte>, n: nat)
    requires 0 < n <= |s| && forall k | 0 <= k < n - 1 :: s[k] != NL
    ensures n <= |FirstLine(s)| && (s[n - 1] == NL ==> n == |FirstLine(s)|)
  {
    if n > 1 { LineSoFar(s[1..], n - 1); }
  }

  lemma LineDone(s: seq<byte>, n: nat, size: nat)
    requires 0 < n <= |s| && n <= size && forall k | 0 <= k < n - 1 :: s[k] != NL
    requires n == size || s[n - 1] == NL
    ensures LineFor(s, size) == s[..n]
  {
    LineSoFar(s, n);
  }

  /** What was read before and the line read now are what is read after. */
  lemma DeliveredMore(e: Editor, line: seq<byte>)
    requires e.taken <= |e.committed| && line <= e.Unread()
    ensures e.committed[..e.taken] + line == e.committed[..e.taken + |line|]
  {
  }

  /** Unread input ends in a newline. */
  lemma EndsInNewline(e: Editor)
    requires e.Ok() && e.Unread() != []
    ensures e.Unread()[|e.Unread()| - 1] == NL
  {
  }

  /**
    The copy loop. It stops at a newline or when the buffer is full; that the ring runs dry in
    the middle of a line does not happen, because what is committed always ends in a newline.
    Zero is the case where there was nothing to begin with, and the caller sleeps.
   */
  method CopyLine(vm: AddressSpaces, ring: Uart.Ring, root: nat, buffer: nat, size: nat) returns (n: nat)
    requires vm.Valid() && ring.Valid() && ring.ed.Ok() && IsRoot(vm.owner, root)
    requires size > 0 && RangeOk(vm.mem, root, buffer, size, PTE_W)
    modifies vm`mem, ring`rxTail, ring`ed
    ensures vm.Valid() && ring.Valid()
    ensures n == |LineFor(old(ring.ed).Unread(), size)| && (n == 0 <==> old(ring.ed).Unread() == [])
    ensures ring.ed == old(ring.ed).(taken := old(ring.ed).taken + n)
    ensures vm.mem == StoreBytes(old(vm.mem), root, buffer, LineFor(old(ring.ed).Unread(), size))
  {
    hide Forest, RangeOk, StoreByte, StoreBytes, LoadByte, FirstLine, LineFor, Uart.Ring.Valid;
    ghost var unread := ring.ed.Unread();
    NoneStored(vm.mem, root, buffer);
    var more := NextByte(vm, ring, root, buffer, size, 0, unread, vm.mem);
    if !more { assert LineFor(unread, size) == []; return 0; }
    EndsInNewline(old(ring.ed));
    n := 1;
    while n < size
      invariant 0 < n <= size && n <= |unread| && vm.Valid() && ring.Valid()
      invariant ring.ed == old(ring.ed).(taken := old(ring.ed).taken + n)
      invariant vm.mem == StoreBytes(old(vm.mem), root, buffer, unread[..n])
      invariant LoadByte(vm.mem, root, buffer + (n - 1)) == unread[n - 1]
      invariant forall k | 0 <= k < n - 1 :: unread[k] != NL
    {
      if LoadByte(vm.mem, root, buffer + (n - 1)) == NL { break; }
      more := NextByte(vm, ring, root, buffer, size, n, unread, old(vm.mem));
      assert more;                               // not "nothing more typed yet"
      n := n + 1;
    }
    LineDone(unread, n, size);
  }

  /** One uart_getc and, if it gave a byte, `buffer[n] = c`. */
  method NextByte(vm: AddressSpaces, ring: Uart.Ring, root: nat, buffer: nat, ghost size: nat, n: nat,
                  ghost unread: seq<byte>, ghost mem0: Mem)
    returns (more: bool)
    requires vm.Valid() && ring.Valid() && Forest(mem0, vm.owner) && IsRoot(vm.owner, root)
    requires n < size && RangeOk(mem0, root, buffer, size, PTE_W)
    requires n <= |unread| && vm.mem == StoreBytes(mem0, root, buffer, unread[..n])
    requires ring.ed.taken <= |ring.ed.committed| && ring.ed.committed[ring.ed.taken..] == unread[n..]
    modifies vm`mem, ring`rxTail, ring`ed
    ensures vm.Valid() && ring.Valid() && (more <==> n < |unread|)
    ensures ring.ed == if more then old(ring.ed).(taken := old(ring.ed).taken + 1) else old(ring.ed)
    ensures !more ==> vm.mem == old(vm.mem)
    ensures more ==>
      vm.mem == StoreBytes(mem0, root, buffer, unread[..n + 1]) && LoadByte(vm.mem, root, buffer + n) == unread[n]
  {
    hide RangeOk, StoreByte, StoreBytes, LoadByte, Forest;
    var c := ring.GetC();
    more := c != -1;
    if more {
      assert unread[..n] + [unread[n]] == unread[..n + 1];
      PutByte(vm, root, buffer, size, n, unread[..n], c as byte, mem0);
    }
  }
}
