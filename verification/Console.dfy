/**
  Console input of kernel/arch/riscv/uart.c: the line editor the driver is meant to be, and the
  ring with three wrapping counters that it is.
 */
module Console {
  import opened Sv39

  const NL: byte := 10
  const CR: byte := 13
  const BS: byte := 8
  const DEL: byte := 127
  const ESC: byte := 27
  const SPACE: byte := 32
  const BRACKET: byte := 91
  const TILDE: byte := 126
  const RX_SIZE := 128

  // ---- the line editor ----

  datatype EscState = Normal | GotEsc | InSeq

  /** Everything ever committed, how much of it was read, the line being typed, and what was echoed. */
  datatype Editor = Editor(committed: seq<byte>, taken: nat, line: seq<byte>, esc: EscState, echo: seq<byte>) {
    function Used(): int { |committed| - taken + |line| }

    function Unread(): seq<byte>
      requires taken <= |committed|
    {
      committed[taken..]
    }

    /** Type one byte, as the terminal sends it. */
    function Receive(raw: byte): Editor {
      var c := if raw == CR then NL else raw;
      if esc == GotEsc then this.(esc := if c == BRACKET then InSeq else Normal)
      else if esc == InSeq then (if 0x40 <= c <= 0x7e then this.(esc := Normal) else this)
      else if c == ESC then this.(esc := GotEsc)
      else if c == NL then
        if Used() < RX_SIZE then this.(committed := committed + line + [NL], line := [], echo := echo + [NL]) else this
      else if c == BS || c == DEL then
        if line != [] then this.(line := line[..|line| - 1], echo := echo + [BS, SPACE, BS]) else this
      else if c < 0x20 then this
      else if Used() < RX_SIZE - 1 then this.(line := line + [c], echo := echo + [c])
      else this
    }

    /** A reader takes the next committed byte, if there is one. */
    function Take(): Editor {
      if taken < |committed| then this.(taken := taken + 1) else this
    }

    predicate Ok() {
      && taken <= |committed| && Used() <= RX_SIZE && (line != [] ==> Used() < RX_SIZE)
      && (forall k | 0 <= k < |line| :: Printable(line[k]))
      && (forall k | 0 <= k < |committed| :: Printable(committed[k]) || committed[k] == NL)
      && (committed != [] ==> committed[|committed| - 1] == NL)
    }
  }

  predicate Printable(c: byte) { c >= 0x20 && c != DEL }

  const EMPTY := Editor([], 0, [], Normal, [])

  datatype Event = Received(c: byte) | Took

  function Apply(e: Editor, ev: Event): Editor {
    match ev
    case Received(c) => e.Receive(c)
    case Took => e.Take()
  }

  /** The editor after a history of received bytes and reads, in any interleaving. */
  function Run(evs: seq<Event>): Editor {
    if evs == [] then EMPTY else Apply(Run(evs[..|evs| - 1]), evs[|evs| - 1])
  }

  lemma ApplyKeepsOk(e: Editor, ev: Event)
    requires e.Ok()
    ensures Apply(e, ev).Ok()
    ensures e.committed <= Apply(e, ev).committed && e.taken <= Apply(e, ev).taken
  {
  }

  /** Every reachable editor: what is committed is whole lines, and a line being typed leaves a slot for its Enter. */
  lemma {:induction false} RunIsOk(evs: seq<Event>)
    ensures Run(evs).Ok()
  {
    if evs != [] {
      RunIsOk(evs[..|evs| - 1]);
      ApplyKeepsOk(Run(evs[..|evs| - 1]), evs[|evs| - 1]);
    }
  }

  /** Committed input is never taken back: an earlier committed stream is a prefix of every later one. */
  lemma {:induction false} CommittedOnlyGrows(evs: seq<Event>, n: nat)
    requires n <= |evs|
    ensures Run(evs[..n]).committed <= Run(evs).committed
    decreases |evs| - n
  {
    if n == |evs| {
      assert evs[..n] == evs;
    } else {
      CommittedOnlyGrows(evs, n + 1);
      RunIsOk(evs[..n]);
      ApplyKeepsOk(Run(evs[..n]), evs[n]);
      assert evs[..n + 1][..n] == evs[..n];
    }
  }

  /**
    A full ring cannot lock up: with nothing left to read, Enter outside an escape sequence commits
    the line being typed, whatever it is. Enter is refused exactly when all slots hold input.
   */
  lemma EnterCommits(e: Editor, enter: byte)
    requires e.Ok() && e.esc == Normal && (enter == NL || enter == CR)
    ensures e.Receive(enter).committed == (if e.Used() < RX_SIZE then e.committed + e.line + [NL] else e.committed)
    ensures e.taken == |e.committed| ==> e.Used() < RX_SIZE && e.Receive(enter).Unread() == e.line + [NL]
    ensures e.Used() == RX_SIZE ==> e.Unread() != [] && e.line == []
  {
    var e' := e.Receive(enter);
    if e.Used() < RX_SIZE { EnterIsTyped(e, enter); }
    hide Editor.Receive;
    if e.taken == |e.committed| {
      assert e'.committed == e.committed + e.line + [NL];
      Suffix(e.committed, e.line, [NL]);
    }
  }

  lemma Suffix(a: seq<byte>, b: seq<byte>, c: seq<byte>)
    ensures (a + b + c)[|a|..] == b + c
  {
  }

  function Feed(e: Editor, bytes: seq<byte>): Editor
    decreases |bytes|
  {
    if bytes == [] then e else Feed(e.Receive(bytes[0]), bytes[1..])
  }

  /** A tilde ends any escape sequence, so that the Enter after it commits. */
  lemma TildeThenEnter(e: Editor)
    requires e.Ok() && e.taken == |e.committed|
    ensures var e' := Feed(e, [TILDE, NL]);
      e'.committed == e.committed + e.Receive(TILDE).line + [NL] && e'.taken == |e.committed|
  {
    var e1 := e.Receive(TILDE);
    assert e1.esc == Normal && e1.Used() < RX_SIZE && e1.committed == e.committed && e1.taken == e.taken;
    hide Editor.Receive;
    assert [TILDE, NL][1..] == [NL];
    FeedOne(e1, NL);
    EnterCommits(e1, NL);
  }

  lemma FeedOne(e: Editor, c: byte)
    ensures Feed(e, [c]) == e.Receive(c)
  {
    hide Editor.Receive;
  }

  /** However the bytes of a burst are split over interrupts, the editor ends the same. */
  lemma {:induction false} FeedSplits(e: Editor, a: seq<byte>, b: seq<byte>)
    ensures Feed(e, a + b) == Feed(Feed(e, a), b)
    decreases |a|
  {
    if a == [] {
      assert a + b == b;
    } else {
      assert (a + b)[1..] == a[1..] + b && (a + b)[0] == a[0];
      FeedSplits(e.Receive(a[0]), a[1..], b);
    }
  }

  lemma FedNone(e: Editor, bytes: seq<byte>)
    ensures Feed(e, bytes[..0]) == e && bytes[..|bytes|] == bytes
  {
  }

  lemma FedOneMore(e: Editor, bytes: seq<byte>, i: nat)
    requires i < |bytes|
    ensures Feed(e, bytes[..i + 1]) == Feed(e, bytes[..i]).Receive(bytes[i])
  {
    hide Editor.Receive;
    assert bytes[..i + 1] == bytes[..i] + [bytes[i]];
    FeedSplits(e, bytes[..i], [bytes[i]]);
    FeedOne(Feed(e, bytes[..i]), bytes[i]);
  }

  // ---- what typing does ----

  /** Bytes that are no control characters, DEL included. */
  predicate IsText(s: seq<byte>) { forall k | 0 <= k < |s| :: 0x20 <= s[k] && s[k] != 127 }

  /** Text that fits is added to the line as it is, and echoed as it is. */
  lemma {:induction false} TextIsTyped(e: Editor, s: seq<byte>)
    requires e.esc == Normal && e.Used() + |s| < RX_SIZE && IsText(s)
    ensures Feed(e, s) == e.(line := e.line + s, echo := e.echo + s)
    decreases |s|
  {
    if s == [] {
      assert e.line + s == e.line && e.echo + s == e.echo;
    } else {
      var e1 := e.(line := e.line + [s[0]], echo := e.echo + [s[0]]);
      assert e.Receive(s[0]) == e1;
      TextIsTyped(e1, s[1..]);
      assert e.line + s == e1.line + s[1..] && e.echo + s == e1.echo + s[1..];
    }
  }

  /** And with Enter, as LF or CR, it is the end of what was committed. */
  lemma LineIsTyped(e: Editor, s: seq<byte>, enter: byte)
    requires e.esc == Normal && e.Used() + |s| < RX_SIZE && IsText(s) && (enter == 10 || enter == 13)
    ensures Feed(e, s + [enter]) ==
      e.(committed := e.committed + e.line + s + [10], line := [], echo := e.echo + s + [10])
  {
    hide Feed, Editor.Receive, IsText;
    TextIsTyped(e, s);
    FeedSplits(e, s, [enter]);
    var e1 := e.(line := e.line + s, echo := e.echo + s);
    FeedOne(e1, enter);
    EnterIsTyped(e1, enter);
    Regroup(e.committed, e.line, s);
  }

  lemma Regroup(a: seq<byte>, b: seq<byte>, c: seq<byte>)
    ensures a + (b + c) + [10] == a + b + c + [10]
  {
  }

  lemma EnterIsTyped(e: Editor, enter: byte)
    requires e.esc == Normal && e.Used() < RX_SIZE && (enter == 10 || enter == 13)
    ensures e.Receive(enter) == e.(committed := e.committed + e.line + [10], line := [], echo := e.echo + [10])
  {
  }

  /** A backspace, as BS or DEL, takes back the byte typed before it: only the echo remembers. */
  lemma ByteIsErased(e: Editor, c: byte, erase: byte)
    requires e.esc == Normal && e.Used() + 1 < RX_SIZE && 0x20 <= c && c != 127 && (erase == 8 || erase == 127)
    ensures Feed(e, [c, erase]) == e.(echo := e.echo + [c, 8, 32, 8])
  {
    var e1 := e.(line := e.line + [c], echo := e.echo + [c]);
    assert [c, erase] == [c] + [erase] && e.Receive(c) == e1;
    FeedSplits(e, [c], [erase]);
    FeedOne(e, c);
    FeedOne(e1, erase);
    assert e1.line[..|e1.line| - 1] == e.line;
    assert e1.echo + [8, 32, 8] == e.echo + [c, 8, 32, 8];
  }

  /**
    What has no effect at all: a backspace at the start of the line, a control byte, text that finds
    only the slot kept for Enter, Enter that finds none, and ESC with a byte that is no bracket.
   */
  lemma NothingIsTyped(e: Editor, c: byte)
    requires e.esc == Normal
    ensures (c == 8 || c == 127) && e.line == [] ==> Feed(e, [c]) == e
    ensures c < 0x20 && c !in {8, 10, 13, 27} ==> Feed(e, [c]) == e
    ensures 0x20 <= c && c != 127 && e.Used() >= RX_SIZE - 1 ==> Feed(e, [c]) == e
    ensures (c == 10 || c == 13) && e.Used() >= RX_SIZE ==> Feed(e, [c]) == e
    ensures c != 91 ==> Feed(e, [27, c]) == e
  {
    FeedOne(e, c);
    FeedOne(e, 27);
    var e1 := e.(esc := GotEsc);
    assert [27, c] == [27] + [c] && e.Receive(27) == e1;
    FeedSplits(e, [27], [c]);
    FeedOne(e1, c);
  }

  /** A whole escape sequence leaves no trace: nothing stored, nothing echoed. */
  lemma EscapeSequenceVanishes(e: Editor, params: seq<byte>, final: byte)
    requires e.esc == Normal && 0x40 <= final <= 0x7e
    requires forall k | 0 <= k < |params| :: params[k] < 0x40 || params[k] > 0x7e
    ensures Feed(e, [ESC, BRACKET] + params + [final]) == e
  {
    var all := [ESC, BRACKET] + params + [final];
    assert all[1..][1..] == params + [final];
    var inSeq := e.(esc := InSeq);
    assert Feed(e, all) == Feed(inSeq, params + [final]);
    ParamsAreSkipped(inSeq, params);
    FeedSplits(inSeq, params, [final]);
    assert Feed(inSeq, [final]) == inSeq.(esc := Normal);
  }

  lemma {:induction false} ParamsAreSkipped(e: Editor, params: seq<byte>)
    requires e.esc == InSeq && forall k | 0 <= k < |params| :: params[k] < 0x40 || params[k] > 0x7e
    ensures Feed(e, params) == e
  {
    if params != [] { ParamsAreSkipped(e, params[1..]); }
  }

  // ---- the screen ----

  /** A row of cells and a cursor: a backspace moves left, anything else overwrites and moves right. */
  datatype Screen = Screen(cells: seq<byte>, cur: nat) {
    predicate Ok() { cur <= |cells| }

    function Left(): seq<byte>
      requires Ok()
    {
      cells[..cur]
    }

    function Put(c: byte): (s: Screen)
      requires Ok()
      ensures s.Ok()
    {
      if c == BS then Screen(cells, if cur == 0 then 0 else cur - 1)
      else Screen(cells[..cur] + [c] + (if cur < |cells| then cells[cur + 1..] else []), cur + 1)
    }
  }

  function Show(log: seq<byte>): (s: Screen)
    ensures s.Ok()
  {
    if log == [] then Screen([], 0) else Show(log[..|log| - 1]).Put(log[|log| - 1])
  }

  lemma ShowMore(log: seq<byte>, c: byte)
    ensures Show(log + [c]) == Show(log).Put(c)
  {
    assert (log + [c])[..|log|] == log;
  }

  /** Left of the cursor the screen shows exactly what was committed and the line being typed. */
  predicate OnScreen(e: Editor) { Show(e.echo).Left() == e.committed + e.line }

  /** The screen agrees with the input after every history of typing and reading. */
  lemma {:induction false} ScreenAgrees(evs: seq<Event>)
    ensures OnScreen(Run(evs))
  {
    if evs != [] {
      var e, ev := Run(evs[..|evs| - 1]), evs[|evs| - 1];
      ScreenAgrees(evs[..|evs| - 1]);
      RunIsOk(evs[..|evs| - 1]);
      ScreenStep(e, ev);
    }
  }

  lemma ScreenStep(e: Editor, ev: Event)
    requires e.Ok() && OnScreen(e)
    ensures OnScreen(Apply(e, ev))
  {
    var e' := Apply(e, ev);
    var c := EchoOf(e, ev);
    if c == -2 {
      ErasesOne(e.echo);
      assert e.committed + e'.line == (e.committed + e.line)[..|e.committed + e.line| - 1];
    } else if c >= 0 {
      ShowMore(e.echo, c as byte);
      PutMoves(Show(e.echo), c as byte);
    }
  }

  /** What one event echoes: nothing (-1), an erasure (-2), or one byte that then ends the text. */
  lemma EchoOf(e: Editor, ev: Event) returns (c: int)
    requires e.Ok()
    ensures -2 <= c < 256 && c != BS as int
    ensures var e' := Apply(e, ev);
      if c == -1 then e'.echo == e.echo && e'.committed == e.committed && e'.line == e.line
      else if c == -2 then
        && e.line != [] && e'.echo == e.echo + [BS, SPACE, BS] && e'.committed == e.committed
        && e'.line == e.line[..|e.line| - 1]
      else e'.echo == e.echo + [c as byte] && e'.committed + e'.line == e.committed + e.line + [c as byte]
  {
    match ev
    case Took => c := -1;
    case Received(raw) =>
      var e', b := e.Receive(raw), if raw == CR then NL else raw;
      c := if e'.echo == e.echo then -1 else if b == BS || b == DEL then -2 else b as int;
      assert e.committed + (e.line + [b]) == e.committed + e.line + [b];
  }

  lemma PutMoves(s: Screen, c: byte)
    requires s.Ok() && c != BS
    ensures s.Put(c).Left() == s.Left() + [c]
  {
  }

  lemma ErasesOne(log: seq<byte>)
    requires Show(log).Left() != []
    ensures Show(log + [BS, SPACE, BS]).Left() == Show(log).Left()[..|Show(log).Left()| - 1]
  {
    ShowMore(log, BS);
    ShowMore(log + [BS], SPACE);
    ShowMore(log + [BS] + [SPACE], BS);
    assert log + [BS, SPACE, BS] == log + [BS] + [SPACE] + [BS];
  }

  // ---- reading lines ----

  /** `s` through its first newline, or all of it when it has none. */
  function FirstLine(s: seq<byte>): (l: seq<byte>)
    ensures l <= s && (forall k | 0 <= k < |l| - 1 :: l[k] != NL)
    ensures s != [] ==> l != []
    ensures l == s || (l != [] && l[|l| - 1] == NL)
  {
    if s == [] then [] else if s[0] == NL then [NL] else [s[0]] + FirstLine(s[1..])
  }

  /** Unread input always has a newline, so a reader that started a line reaches its end. */
  lemma UnreadHasNewline(e: Editor)
    requires e.Ok() && e.Unread() != []
    ensures FirstLine(e.Unread())[|FirstLine(e.Unread())| - 1] == NL
  {
    if FirstLine(e.Unread()) == e.Unread() { assert e.Unread()[|e.Unread()| - 1] == e.committed[|e.committed| - 1]; }
  }
}
