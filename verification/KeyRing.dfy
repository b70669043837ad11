/** The keyboard ring: an interrupt puts characters in, one reader takes them out, and interrupts may
    come between any two of the reader's memory accesses. */
module KeyRing {
  import opened Bytes

  const BUFFER_SIZE := 256

  // ---------------------------------------------------------------- scan codes

  /** `scancode_ascii`, row by row; 0 for keys that give no character. */
  function ScancodeAscii(code: byte): byte {
    if 2 <= code < 14 then [49, 50, 51, 52, 53, 54, 55, 56, 57, 48, 45, 95][code - 2]
    else if code == 14 then 8
    else if 16 <= code < 28 then [113, 119, 101, 114, 116, 121, 117, 105, 111, 112, 91, 93][code - 16]
    else if code == 28 then 10
    else if 30 <= code < 42 then [97, 115, 100, 102, 103, 104, 106, 107, 108, 59, 39, 96][code - 30]
    else if 43 <= code < 54 then [92, 122, 120, 99, 118, 98, 110, 109, 44, 46, 47][code - 43]
    else if code == 55 then 42
    else if code == 57 then 32
    else 0
  }

  /** The character of a key press, if it has one: releases carry the high bit. */
  function CharOf(code: byte): Option<byte> {
    if code >= 128 || ScancodeAscii(code) == 0 then None else Some(ScancodeAscii(code))
  }

  /** The rows of the keyboard, left to right, from the code of their first key on. */
  lemma RowsTyped()
    ensures forall i :: 0 <= i < 12 ==> CharOf((2 + i) as byte) == Some("1234567890-_"[i] as byte)
    ensures forall i :: 0 <= i < 12 ==> CharOf((16 + i) as byte) == Some("qwertyuiop[]"[i] as byte)
    ensures forall i :: 0 <= i < 12 ==> CharOf((30 + i) as byte) == Some("asdfghjkl;'`"[i] as byte)
    ensures forall i :: 0 <= i < 11 ==> CharOf((43 + i) as byte) == Some("\\zxcvbnm,./"[i] as byte)
    ensures CharOf(14) == Some(8) && CharOf(28) == Some('\n' as byte) && CharOf(55) == Some('*' as byte)
    ensures CharOf(57) == Some(' ' as byte)
    ensures forall code: byte :: CharOf(code).Some? ==> 2 <= code <= 57 && code !in {15, 29, 42, 54, 56}
  {
  }

  // ---------------------------------------------------------------- the machine

  /** Where the reader is: between calls; after reading `head`; after finding the ring nonempty; after
      loading the character. */
  datatype Reader = Idle | Compared(head: nat) | Nonempty | Loaded(c: byte)

  /** The ring and its reader, with everything that was put in and everything that was handed out. */
  datatype Ring = Ring(buffer: seq<byte>, head: nat, tail: nat, reader: Reader, accepted: seq<byte>, delivered: seq<byte>)

  function Successor(i: nat): nat { (i + 1) % BUFFER_SIZE }

  /** How many characters lie from `tail` up to `head`. */
  function Length(head: nat, tail: nat): (n: nat)
    requires head < BUFFER_SIZE && tail < BUFFER_SIZE
    ensures n < BUFFER_SIZE
  {
    (head + BUFFER_SIZE - tail) % BUFFER_SIZE
  }

  function Slot(tail: nat, k: nat): (i: nat)
    ensures i < BUFFER_SIZE
  {
    (tail + k) % BUFFER_SIZE
  }

  /** The characters waiting in the ring, oldest first. */
  function Waiting(buffer: seq<byte>, head: nat, tail: nat): (p: seq<byte>)
    requires |buffer| == BUFFER_SIZE && head < BUFFER_SIZE && tail < BUFFER_SIZE
    ensures |p| == Length(head, tail)
  {
    seq(Length(head, tail), k requires 0 <= k < Length(head, tail) => buffer[Slot(tail, k)])
  }

  ghost predicate Shaped(r: Ring) {
    |r.buffer| == BUFFER_SIZE && r.head < BUFFER_SIZE && r.tail < BUFFER_SIZE
  }

  ghost function Pending(r: Ring): seq<byte>
    requires Shaped(r)
  {
    Waiting(r.buffer, r.head, r.tail)
  }

  /** Nothing is lost, repeated or reordered, and what the reader is about to hand out is still the
      oldest waiting character. */
  ghost predicate RingOk(r: Ring) {
    && Shaped(r)
    && r.accepted == r.delivered + Pending(r)
    && match r.reader
       case Idle => true
       case Compared(h) => h < BUFFER_SIZE && Length(h, r.tail) <= |Pending(r)|
       case Nonempty => Pending(r) != []
       case Loaded(c) => Pending(r) != [] && Pending(r)[0] == c
  }

  datatype Event =
    | Press(code: byte)   // the keyboard interrupt
    | Read                // the reader's next memory access

  /** `click_on_keybord`, which runs to its end before the reader goes on. */
  function Click(r: Ring, code: byte): Ring
    requires |r.buffer| == BUFFER_SIZE && r.head < BUFFER_SIZE
  {
    match CharOf(code)
    case None => r
    case Some(c) =>
      if Successor(r.head) == r.tail then r
      else r.(buffer := r.buffer[r.head := c], head := Successor(r.head), accepted := r.accepted + [c])
  }

  /** `read_kyboard_from_main`, one access at a time. */
  function ReadStep(r: Ring): Ring
    requires |r.buffer| == BUFFER_SIZE && r.tail < BUFFER_SIZE
  {
    match r.reader
    case Idle => r.(reader := Compared(r.head))
    case Compared(h) => r.(reader := if h == r.tail then Idle else Nonempty)
    case Nonempty => r.(reader := Loaded(r.buffer[r.tail]))
    case Loaded(c) => r.(reader := Idle, tail := Successor(r.tail), delivered := r.delivered + [c])
  }

  function Step(r: Ring, e: Event): Ring
    requires |r.buffer| == BUFFER_SIZE && r.head < BUFFER_SIZE && r.tail < BUFFER_SIZE
  {
    match e
    case Press(code) => Click(r, code)
    case Read => ReadStep(r)
  }

  // ---------------------------------------------------------------- what every step keeps

  lemma PutWaiting(buffer: seq<byte>, head: nat, tail: nat, c: byte)
    requires |buffer| == BUFFER_SIZE && head < BUFFER_SIZE && tail < BUFFER_SIZE && Successor(head) != tail
    ensures Waiting(buffer[head := c], Successor(head), tail) == Waiting(buffer, head, tail) + [c]
  {
    var n := Length(head, tail);
    assert Length(Successor(head), tail) == n + 1;
    assert Slot(tail, n) == head;
    forall k | 0 <= k < n
      ensures Slot(tail, k) != head
    {
    }
  }

  lemma TakeWaiting(buffer: seq<byte>, head: nat, tail: nat)
    requires |buffer| == BUFFER_SIZE && head < BUFFER_SIZE && tail < BUFFER_SIZE && head != tail
    ensures Waiting(buffer, head, tail) == [buffer[tail]] + Waiting(buffer, head, Successor(tail))
  {
    var n := Length(head, tail);
    assert Length(head, Successor(tail)) == n - 1;
    forall k | 1 <= k < n
      ensures Slot(tail, k) == Slot(Successor(tail), k - 1)
    {
    }
    assert Slot(tail, 0) == tail;
    hide Slot, Length, Successor;
  }

  /** A key press with a character is dropped exactly when 255 are waiting, and otherwise waits last. */
  lemma ClickKeeps(r: Ring, code: byte)
    requires RingOk(r)
    ensures RingOk(Click(r, code))
    ensures match CharOf(code)
            case None => Click(r, code) == r
            case Some(c) => Pending(Click(r, code)) == if |Pending(r)| == 255 then Pending(r) else Pending(r) + [c]
    ensures |Pending(r)| == 255 ==> Click(r, code) == r
  {
    match CharOf(code)
    case None =>
    case Some(c) =>
      assert Successor(r.head) == r.tail <==> Length(r.head, r.tail) == 255;
      if Successor(r.head) != r.tail {
        PutWaiting(r.buffer, r.head, r.tail, c);
        assert r.delivered + (Pending(r) + [c]) == r.delivered + Pending(r) + [c];
      }
  }

  /** No key press overwrites the slot that the reader is about to load or has just loaded. */
  lemma SlotKept(r: Ring, code: byte)
    requires RingOk(r) && (r.reader.Nonempty? || r.reader.Loaded?)
    ensures Click(r, code).buffer[r.tail] == r.buffer[r.tail] && Click(r, code).tail == r.tail
  {
    assert r.head != r.tail;
  }

  lemma ReadKeeps(r: Ring)
    requires RingOk(r)
    ensures RingOk(ReadStep(r))
    ensures ReadStep(r).accepted == r.accepted
    ensures r.reader.Loaded? ==> ReadStep(r).delivered == r.delivered + [Pending(r)[0]] && Pending(ReadStep(r)) == Pending(r)[1..]
  {
    match r.reader
    case Idle =>
    case Compared(h) =>
    case Nonempty =>
      TakeWaiting(r.buffer, r.head, r.tail);
    case Loaded(c) =>
      TakeWaiting(r.buffer, r.head, r.tail);
      assert r.delivered + ([c] + Pending(ReadStep(r))) == r.delivered + [c] + Pending(ReadStep(r));
  }

  lemma StepKeeps(r: Ring, e: Event)
    requires RingOk(r)
    ensures RingOk(Step(r, e))
    ensures r.accepted <= Step(r, e).accepted && r.delivered <= Step(r, e).delivered
    ensures e.Read? ==> |Pending(Step(r, e))| <= |Pending(r)|
  {
    match e
    case Press(code) => ClickKeeps(r, code);
    case Read => ReadKeeps(r);
  }

  /** The state after a run of key presses and reader accesses, interleaved in any way. */
  ghost function Run(r: Ring, es: seq<Event>): (r': Ring)
    requires RingOk(r)
    ensures RingOk(r') && r.accepted <= r'.accepted && r.delivered <= r'.delivered
    decreases |es|
  {
    if es == [] then r
    else
      StepKeeps(r, es[0]);
      Run(Step(r, es[0]), es[1..])
  }

  function TypedBy(e: Event): (s: seq<byte>) {
    if e.Press? && CharOf(e.code).Some? then [CharOf(e.code).value] else []
  }

  /** The characters typed during a run. */
  function Typed(es: seq<Event>): (s: seq<byte>) {
    if es == [] then [] else TypedBy(es[0]) + Typed(es[1..])
  }

  /** With room for it, what is typed is accepted. */
  lemma StepAccepts(r: Ring, e: Event)
    requires RingOk(r) && |Pending(r)| + |TypedBy(e)| <= 255
    ensures RingOk(Step(r, e)) && Step(r, e).accepted == r.accepted + TypedBy(e)
    ensures |Pending(Step(r, e))| <= |Pending(r)| + |TypedBy(e)|
  {
    StepKeeps(r, e);
    if e.Press? {
      ClickKeeps(r, e.code);
      assert Successor(r.head) == r.tail <==> Length(r.head, r.tail) == 255;
    } else {
      ReadKeeps(r);
    }
  }

  /** A run in which at most 255 characters wait or are typed loses none of them: what has been handed
      out, followed by what waits, is what was there before, followed by what was typed. */
  lemma {:induction false} NothingLost(r: Ring, es: seq<Event>)
    requires RingOk(r) && |Pending(r)| + |Typed(es)| <= 255
    ensures Run(r, es).accepted == r.accepted + Typed(es)
    ensures Run(r, es).delivered + Pending(Run(r, es)) == r.delivered + Pending(r) + Typed(es)
    decreases |es|
  {
    if es != [] {
      StepAccepts(r, es[0]);
      hide RingOk, Step, Pending;
      NothingLost(Step(r, es[0]), es[1..]);
      assert (r.accepted + TypedBy(es[0])) + Typed(es[1..]) == r.accepted + Typed(es);
    }
  }

  function Presses(codes: seq<byte>): (es: seq<Event>)
    ensures |es| == |codes|
  {
    seq(|codes|, i requires 0 <= i < |codes| => Press(codes[i]))
  }

  /** Key presses while the reader is between two accesses only make more characters wait. */
  lemma {:induction false} PressesGrow(r: Ring, codes: seq<byte>)
    requires RingOk(r)
    ensures var r' := Run(r, Presses(codes));
      && r'.tail == r.tail && r'.reader == r.reader && r'.delivered == r.delivered
      && Pending(r) <= Pending(r')
    decreases |codes|
  {
    if codes != [] {
      ClickKeeps(r, codes[0]);
      assert Presses(codes)[1..] == Presses(codes[1..]);
      PressesGrow(Click(r, codes[0]), codes[1..]);
    }
  }

  /** One whole read with interrupts between its accesses. */
  ghost function ReadUnder(r: Ring, irqs: seq<seq<byte>>): (r': Ring)
    requires RingOk(r) && r.reader == Idle && |irqs| == 3
    ensures RingOk(r')
  {
    ReadKeeps(r);
    var r1 := Run(ReadStep(r), Presses(irqs[0]));
    ReadKeeps(r1);
    var r2 := ReadStep(r1);
    if r2.reader == Idle then r2
    else
      var r3 := Run(r2, Presses(irqs[1]));
      ReadKeeps(r3);
      var r4 := Run(ReadStep(r3), Presses(irqs[2]));
      ReadKeeps(r4);
      ReadStep(r4)
  }

  /** A read hands out the character that was oldest when it began, and nothing exactly when none was
      waiting then, whatever is typed meanwhile. */
  lemma ReadUnderGives(r: Ring, irqs: seq<seq<byte>>)
    requires RingOk(r) && r.reader == Idle && |irqs| == 3
    ensures var r' := ReadUnder(r, irqs);
      && r'.reader == Idle
      && r'.delivered == r.delivered + if Pending(r) == [] then [] else [Pending(r)[0]]
  {
    hide Presses, Waiting, Run;
    ReadKeeps(r);
    PressesGrow(ReadStep(r), irqs[0]);
    var r1 := Run(ReadStep(r), Presses(irqs[0]));
    ReadKeeps(r1);
    assert r.head == r.tail <==> Pending(r) == [];
    if Pending(r) != [] {
      PressesGrow(ReadStep(r1), irqs[1]);
      var r3 := Run(ReadStep(r1), Presses(irqs[1]));
      ReadKeeps(r3);
      PressesGrow(ReadStep(r3), irqs[2]);
      ReadKeeps(Run(ReadStep(r3), Presses(irqs[2])));
    }
  }

  // ---------------------------------------------------------------- the driver's variables

  class Keyboard {
    const buffer: array<byte>
    var head: nat
    var tail: nat
    ghost var reader: Reader
    ghost var accepted: seq<byte>
    ghost var delivered: seq<byte>

    ghost function View(): Ring
      reads this, buffer
    {
      Ring(buffer[..], head, tail, reader, accepted, delivered)
    }

    constructor ()
      ensures RingOk(View()) && reader == Idle && accepted == delivered == [] && fresh(buffer)
    {
      buffer := new byte[BUFFER_SIZE];
      head, tail, reader, accepted, delivered := 0, 0, Idle, [], [];
    }

    method ClickOnKeybord(scancode: byte)
      requires RingOk(View())
      modifies this`head, this`accepted, buffer
      ensures RingOk(View()) && View() == old(Click(View(), scancode))
    {
      ClickKeeps(View(), scancode);
      if scancode >= 128 { return; }
      var c := ScancodeAscii(scancode);
      if c == 0 { return; }
      var nextHead := (head + 1) % BUFFER_SIZE;
      if nextHead == tail { return; }
      buffer[head] := c;
      head := nextHead;
      accepted := accepted + [c];
    }

    /** The interrupts that come between two of the reader's accesses. */
    method Interrupts(codes: seq<byte>)
      requires RingOk(View())
      modifies this`head, this`accepted, buffer
      ensures RingOk(View()) && View() == old(Run(View(), Presses(codes)))
      ensures tail == old(tail) && reader == old(reader) && delivered == old(delivered)
    {
      ghost var was := View();
      for i := 0 to |codes|
        invariant RingOk(View()) && Run(View(), Presses(codes[i..])) == Run(was, Presses(codes))
        invariant tail == old(tail) && reader == old(reader) && delivered == old(delivered)
      {
        assert Presses(codes[i..])[1..] == Presses(codes[i + 1..]);
        ClickOnKeybord(codes[i]);
      }
    }

    // The reader's accesses, one at a time.

    method LoadHead() returns (h: nat)
      requires RingOk(View()) && reader == Idle
      modifies this`reader
      ensures RingOk(View()) && View() == old(ReadStep(View())) && reader == Compared(h)
    {
      ReadKeeps(View());
      h := head;
      reader := Compared(h);
    }

    method IsEmpty(h: nat) returns (empty: bool)
      requires RingOk(View()) && reader == Compared(h)
      modifies this`reader
      ensures RingOk(View()) && View() == old(ReadStep(View())) && reader == if empty then Idle else Nonempty
    {
      ReadKeeps(View());
      empty := h == tail;
      reader := if empty then Idle else Nonempty;
    }

    method LoadChar() returns (c: byte)
      requires RingOk(View()) && reader == Nonempty
      modifies this`reader
      ensures RingOk(View()) && View() == old(ReadStep(View())) && reader == Loaded(c)
    {
      ReadKeeps(View());
      c := buffer[tail];
      reader := Loaded(c);
    }

    method AdvanceTail(ghost c: byte)
      requires RingOk(View()) && reader == Loaded(c)
      modifies this`tail, this`reader, this`delivered
      ensures RingOk(View()) && View() == old(ReadStep(View())) && reader == Idle && delivered == old(delivered) + [c]
    {
      ReadKeeps(View());
      tail := (tail + 1) % BUFFER_SIZE;
      reader, delivered := Idle, delivered + [c];
    }

    /** `read_kyboard_from_main` with the interrupts `irqs[0]` after reading `head`, `irqs[1]` after
        finding the ring nonempty and `irqs[2]` after loading the character. It succeeds exactly when a
        character was waiting at the call, and hands out the oldest one. */
    method ReadKyboardFromMain(irqs: seq<seq<byte>>) returns (ok: bool, c: byte)
      requires RingOk(View()) && reader == Idle && |irqs| == 3
      modifies this, buffer
      ensures RingOk(View()) && reader == Idle && View() == old(ReadUnder(View(), irqs))
      ensures ok <==> old(Pending(View())) != []
      ensures delivered == old(delivered) + if ok then [c] else []
      ensures ok ==> c == old(Pending(View()))[0]
    {
      hide Run, RingOk, ReadStep, Pending, Presses;
      ReadUnderGives(View(), irqs);
      var h := LoadHead();
      Interrupts(irqs[0]);
      var empty := IsEmpty(h);
      if empty { return false, 0; }
      Interrupts(irqs[1]);
      c := LoadChar();
      Interrupts(irqs[2]);
      AdvanceTail(c);
      assert delivered[|old(delivered)|] == c;
      return true, c;
    }
  }
}
