/** The receive ring of kernel/arch/riscv/uart.c, and its refinement of the line editor. */
module Uart {
  import opened Sv39
  import opened Console

  const U32 := 0x1_0000_0000

  /** A count as a uint32_t holds it. */
  function Wrap(n: nat): (w: nat)
    ensures w < U32
  {
    n % U32
  }

  function Sub32(a: nat, b: nat): (d: nat)
    requires a < U32 && b < U32
    ensures d < U32
  {
    (a - b) % U32
  }

  function Inc32(a: nat): (b: nat)
    ensures b < U32
  {
    (a + 1) % U32
  }

  /** Wrapping differences of the counters are the true ones while these stay below 2^32. */
  lemma WrapDiff(a: nat, b: nat)
    requires b <= a < b + U32
    ensures Sub32(Wrap(a), Wrap(b)) == a - b
    ensures a != b ==> Wrap(a) != Wrap(b)
  {
  }

  lemma WrapStep(n: nat)
    ensures Inc32(Wrap(n)) == Wrap(n + 1)
    ensures n > 0 ==> Sub32(Wrap(n), 1) == Wrap(n - 1)
  {
    Inc32Wraps(n);
    if n > 0 { Dec32Wraps(n); }
  }

  lemma Inc32Wraps(n: nat)
    ensures Inc32(Wrap(n)) == Wrap(n + 1)
  {
  }

  lemma Dec32Wraps(n: nat)
    requires n > 0
    ensures Sub32(Wrap(n), 1) == Wrap(n - 1)
  {
  }

  /** The slot of a wrapped counter is the slot of the true one, because 128 divides 2^32. */
  lemma WrapSlot(a: nat)
    ensures Wrap(a) % RX_SIZE == a % RX_SIZE
  {
    assert a == a / U32 * U32 + a % U32;
    assert a / U32 * U32 == RX_SIZE * (a / U32 * 0x200_0000);
    SlotOfSum(a / U32 * 0x200_0000, a % U32);
  }

  lemma SlotOfSum(k: nat, x: nat)
    ensures (RX_SIZE * k + x) % RX_SIZE == x % RX_SIZE
  {
  }

  /** Two counts less than a ring apart have different slots. */
  lemma SlotsApart(a: nat, b: nat)
    requires a < b < a + RX_SIZE
    ensures a % RX_SIZE != b % RX_SIZE
  {
  }

  class Ring {
    const rxBuf: array<byte>
    var rxHead: nat
    var rxTail: nat
    var rxCommit: nat
    var escState: EscState
    var out: seq<byte>        // everything the driver has echoed
    ghost var ed: Editor      // the editor this ring stands for

    /**
      The counters are the editor's lengths modulo 2^32; the slots from tail to head hold its text; the
      screen shows it.
     */
    ghost predicate Valid()
      reads this, rxBuf
    {
      && rxBuf.Length == RX_SIZE && ed.Ok() && OnScreen(ed)
      && rxTail == Wrap(ed.taken) && rxCommit == Wrap(|ed.committed|)
      && rxHead == Wrap(|ed.committed| + |ed.line|)
      && escState == ed.esc && out == ed.echo
      && Holds(rxBuf[..], ed.committed + ed.line, ed.taken)
    }

    constructor ()
      ensures Valid() && ed == EMPTY && fresh(rxBuf)
    {
      rxBuf := new byte[RX_SIZE](_ => 0);
      rxHead, rxTail, rxCommit := 0, 0, 0;
      escState, out, ed := Normal, [], EMPTY;
    }

    /** One turn of the drain loop of uart_intr. `woke` says that it reached wakeup(&rx_buf). */
    method Receive(raw: byte) returns (woke: bool)
      requires Valid()
      modifies this, rxBuf
      ensures Valid() && ed == old(ed).Receive(raw)
      ensures woke <==> ed.committed != old(ed).committed
    {
      hide Wrap, Sub32, Inc32, Holds, OnScreen;
      woke := false;
      var c := raw;
      if c == CR { c := NL; }
      if escState == GotEsc {
        escState := if c == BRACKET then InSeq else Normal;
      } else if escState == InSeq {
        if 0x40 <= c <= 0x7e { escState := Normal; }
      } else if c == ESC {
        escState := GotEsc;
      } else {
        woke := Type(c, raw);
        return;
      }
      ApplyKeepsOk(ed, Received(raw));
      ScreenStep(ed, Received(raw));
      ed := ed.Receive(raw);
    }

    /** The part of that loop past the escape filter: Enter, erase, or a byte to store. */
    method Type(c: byte, ghost raw: byte) returns (woke: bool)
      requires Valid() && escState == Normal && c != ESC && c == (if raw == CR then NL else raw)
      modifies this, rxBuf
      ensures Valid() && ed == old(ed).Receive(raw)
      ensures woke <==> ed.committed != old(ed).committed
    {
      hide Wrap, Sub32, Inc32, Holds, OnScreen;
      woke := false;
      Counters();
      ApplyKeepsOk(ed, Received(raw));
      ScreenStep(ed, Received(raw));
      ghost var text, e := ed.committed + ed.line, ed.Receive(raw);
      WrapStep(|text|);
      if c == NL {
        if Sub32(rxHead, rxTail) < RX_SIZE {
          Store(c, text, ed.taken);
          rxCommit := rxHead;
          out := out + [c];
          woke := true;
          assert e.committed + e.line == text + [c];
        }
      } else if c == BS || c == DEL {
        if rxHead != rxCommit {
          rxHead := Sub32(rxHead, 1);
          out := out + [BS] + [SPACE] + [BS];
          DropHolds(rxBuf[..], text, ed.taken);
          assert e.committed + e.line == text[..|text| - 1];
        }
      } else if c < 0x20 {
      } else if Sub32(rxHead, rxTail) < RX_SIZE - 1 {
        Store(c, text, ed.taken);
        out := out + [c];
        assert e.committed + e.line == text + [c];
      }
      ed := e;
    }

    /** rx_buf[rx_head % UART_RX_SIZE] = c; rx_head++. */
    method Store(c: byte, ghost text: seq<byte>, ghost t: nat)
      requires rxHead == Wrap(|text|) && Holds(rxBuf[..], text, t) && |text| < t + RX_SIZE
      modifies `rxHead, rxBuf
      ensures rxHead == Wrap(|text| + 1) && Holds(rxBuf[..], text + [c], t)
    {
      WrapSlot(|text|);
      StoreHolds(rxBuf[..], text, t, c);
      rxBuf[rxHead % RX_SIZE] := c;
      assert rxBuf[..] == old(rxBuf[..])[|text| % RX_SIZE := c];
      WrapStep(|text|);
      rxHead := Inc32(rxHead);
    }

    /** The differences the driver computes. */
    lemma Counters()
      requires Valid()
      ensures Sub32(rxHead, rxTail) == ed.Used()
      ensures (rxHead == rxCommit) <==> ed.line == []
      ensures (rxCommit == rxTail) <==> ed.Unread() == []
    {
      WrapDiff(|ed.committed| + |ed.line|, ed.taken);
      WrapDiff(|ed.committed| + |ed.line|, |ed.committed|);
      WrapDiff(|ed.committed|, ed.taken);
    }

    /** uart_getc: the next byte of a committed line, or -1 when there is none. */
    method GetC() returns (c: int)
      requires Valid()
      modifies `rxTail, `ed
      ensures Valid() && ed == old(ed).Take()
      ensures c == if old(ed).Unread() == [] then -1 else old(ed).Unread()[0] as int
    {
      hide Wrap, Sub32, Inc32, Show;
      Counters();
      if rxCommit == rxTail { return -1; }
      WrapSlot(ed.taken);
      assert (ed.committed + ed.line)[ed.taken] == ed.Unread()[0];
      c := rxBuf[rxTail % RX_SIZE] as int;
      WrapStep(ed.taken);
      rxTail := Inc32(rxTail);
      ed := ed.Take();
    }
  }

  /** The slots for positions t.. of the text hold those bytes. */
  ghost predicate Holds(buf: seq<byte>, text: seq<byte>, t: nat) {
    && |buf| == RX_SIZE && t <= |text| <= t + RX_SIZE
    && forall n {:trigger text[n]} | t <= n < |text| :: buf[n % RX_SIZE] == text[n]
  }

  lemma DropHolds(buf: seq<byte>, text: seq<byte>, t: nat)
    requires t < |text|
    ensures Holds(buf, text, t) ==> Holds(buf, text[..|text| - 1], t)
  {
  }

  lemma StoreHolds(buf: seq<byte>, text: seq<byte>, t: nat, c: byte)
    requires Holds(buf, text, t) && |text| < t + RX_SIZE
    ensures Holds(buf[|text| % RX_SIZE := c], text + [c], t)
  {
    forall n {:trigger (text + [c])[n]} | t <= n < |text| + 1
      ensures buf[|text| % RX_SIZE := c][n % RX_SIZE] == (text + [c])[n]
    {
      if n < |text| { SlotsApart(n, |text|); }
    }
  }
}
