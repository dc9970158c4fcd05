/** The keyboard's ring buffer, written by the interrupt handler and read by
    keyboard_getchar in two halves (src/keyboard.c). */
module Keyboard {
  import opened Collections

  const BUFFER_SIZE := 256

  /** The shared variables, and the character getchar has read but not yet stepped
      over ([] outside that window). */
  datatype Ring = Ring(buffer: seq<char>, read: nat, write: nat, held: seq<char>)

  /** One atomic step: an interrupt can fall between the halves of getchar. */
  datatype Event = Interrupt(ascii: char) | Fetch | Advance

  // ----- The steps -------------------------------------------------------------

  /** The end of keyboard_handler. */
  function Pushed(r: Ring, ascii: char): Ring
    requires r.write < |r.buffer|
  {
    var next := (r.write + 1) % BUFFER_SIZE;
    if ascii != '\0' && next != r.read then r.(buffer := r.buffer[r.write := ascii], write := next) else r
  }

  /** getchar's read of the slot; it halts while there is nothing to read. */
  function Fetched(r: Ring): Ring
    requires r.read < |r.buffer|
  {
    if r.read != r.write then r.(held := [r.buffer[r.read]]) else r
  }

  function Advanced(r: Ring): Ring {
    r.(read := (r.read + 1) % BUFFER_SIZE, held := [])
  }

  // ----- The queue it stands for --------------------------------------------------

  function Count(r: Ring): (n: nat)
    ensures n < BUFFER_SIZE
  {
    (r.write - r.read) % BUFFER_SIZE
  }

  predicate Valid(r: Ring) {
    && |r.buffer| == BUFFER_SIZE && r.read < BUFFER_SIZE && r.write < BUFFER_SIZE
    && (r.held != [] ==> r.read != r.write && r.held == [r.buffer[r.read]])
  }

  /** The accepted characters not yet delivered, oldest first. */
  function Pending(r: Ring): (q: seq<char>)
    requires |r.buffer| == BUFFER_SIZE
    ensures |q| == Count(r)
  {
    seq(Count(r), i requires 0 <= i < Count(r) => r.buffer[(r.read + i) % BUFFER_SIZE])
  }

  lemma PendingAt(r: Ring, i: nat)
    requires |r.buffer| == BUFFER_SIZE && i < Count(r)
    ensures Pending(r)[i] == r.buffer[(r.read + i) % BUFFER_SIZE]
  {
  }

  lemma Full(r: Ring)
    requires Valid(r)
    ensures (r.write + 1) % BUFFER_SIZE == r.read <==> Count(r) == BUFFER_SIZE - 1
    ensures Count(r) < BUFFER_SIZE - 1 ==> forall c :: c != '\0' ==> Count(Pushed(r, c)) == Count(r) + 1
    ensures (r.read + Count(r)) % BUFFER_SIZE == r.write
  {
  }

  lemma SlotIsNotWrite(r: Ring, i: nat)
    requires Valid(r) && i < Count(r)
    ensures (r.read + i) % BUFFER_SIZE != r.write
  {
  }

  /** A character is accepted exactly while fewer than 255 are pending, and goes to
      the end of the queue; whatever getchar holds stays what it was. */
  lemma PushAppends(r: Ring, ascii: char)
    requires Valid(r)
    ensures Valid(Pushed(r, ascii)) && Pushed(r, ascii).held == r.held
    ensures Pending(Pushed(r, ascii)) ==
      if ascii != '\0' && |Pending(r)| < BUFFER_SIZE - 1 then Pending(r) + [ascii] else Pending(r)
  {
    hide Count, Pending;
    var s := Pushed(r, ascii);
    Full(r);
    if s != r {
      forall i | 0 <= i < Count(r) ensures Pending(s)[i] == Pending(r)[i] {
        SlotIsNotWrite(r, i);
        PendingAt(r, i);
        PendingAt(s, i);
      }
      PendingAt(s, Count(r));
    }
  }

  lemma FetchSeesOldest(r: Ring)
    requires Valid(r) && r.held == []
    ensures Valid(Fetched(r)) && Pending(Fetched(r)) == Pending(r)
    ensures if Pending(r) == [] then Fetched(r) == r else Fetched(r).held == [Pending(r)[0]]
  {
  }

  lemma OneLess(r: Ring)
    requires Valid(r) && r.read != r.write
    ensures Count(r) > 0 && Count(Advanced(r)) == Count(r) - 1
  {
  }

  lemma NextSlot(read: nat, i: nat)
    ensures ((read + 1) % BUFFER_SIZE + i) % BUFFER_SIZE == (read + (i + 1)) % BUFFER_SIZE
  {
  }

  lemma AdvanceDrops(r: Ring)
    requires Valid(r) && r.held != []
    ensures Pending(r) != [] && r.held[0] == Pending(r)[0]
    ensures Valid(Advanced(r)) && Pending(Advanced(r)) == Pending(r)[1..]
  {
    hide Count, Pending;
    var s := Advanced(r);
    OneLess(r);
    PendingAt(r, 0);
    forall i | 0 <= i < Count(s) ensures Pending(s)[i] == Pending(r)[i + 1] {
      NextSlot(r.read, i);
      PendingAt(r, i + 1);
      PendingAt(s, i);
    }
  }

  // ----- Every interleaving ----------------------------------------------------------

  predicate Enabled(r: Ring, e: Event) {
    match e
    case Interrupt(_) => true
    case Fetch => r.held == []
    case Advance => r.held != []
  }

  function Next(r: Ring, e: Event): Ring
    requires Valid(r)
  {
    match e
    case Interrupt(c) => Pushed(r, c)
    case Fetch => Fetched(r)
    case Advance => Advanced(r)
  }

  ghost predicate IsStep(r: Ring, e: Event, s: Ring) {
    Enabled(r, e) && (Valid(r) ==> s == Next(r, e))
  }

  /** A run from the empty ring. */
  ghost predicate IsRun(rings: seq<Ring>, events: seq<Event>) {
    && |rings| == |events| + 1
    && Valid(rings[0]) && rings[0].read == rings[0].write && rings[0].held == []
    && forall i :: 0 <= i < |events| ==> IsStep(rings[i], events[i], rings[i + 1])
  }

  /** The characters that found room, in the order of their interrupts. */
  function Accepted(rings: seq<Ring>, events: seq<Event>, n: nat): seq<char>
    requires n <= |events| && n < |rings|
  {
    if n == 0 then []
    else
      Accepted(rings, events, n - 1) +
      match events[n - 1]
      case Interrupt(c) => if c != '\0' && Count(rings[n - 1]) < BUFFER_SIZE - 1 then [c] else []
      case _ => []
  }

  /** What getchar has returned, in order. */
  function Delivered(rings: seq<Ring>, events: seq<Event>, n: nat): seq<char>
    requires n <= |events| && n < |rings|
  {
    if n == 0 then []
    else Delivered(rings, events, n - 1) + if events[n - 1] == Advance then rings[n - 1].held else []
  }

  lemma StepKeepsQueue(r: Ring, e: Event)
    requires Valid(r) && Enabled(r, e)
    ensures Valid(Next(r, e))
    ensures (if e == Advance then r.held else []) + Pending(Next(r, e)) ==
      Pending(r) + match e
                   case Interrupt(c) => if c != '\0' && Count(r) < BUFFER_SIZE - 1 then [c] else []
                   case _ => []
  {
    hide Pending, Pushed, Fetched, Advanced, Count;
    match e
    case Interrupt(c) => PushAppends(r, c);
    case Fetch => FetchSeesOldest(r);
    case Advance => AdvanceDrops(r);
  }

  lemma PendingCount(r: Ring)
    requires Valid(r)
    ensures r.read == r.write <==> Pending(r) == []
  {
  }

  /** First in, first out, under every interleaving: what was delivered and what is
      pending are together exactly what was accepted, in that order. */
  lemma {:induction false} Fifo(rings: seq<Ring>, events: seq<Event>, n: nat)
    requires IsRun(rings, events) && n < |rings|
    ensures Valid(rings[n])
    ensures Delivered(rings, events, n) + Pending(rings[n]) == Accepted(rings, events, n)
  {
    hide Pending, Count, Next, Enabled;
    if n == 0 {
      PendingCount(rings[0]);
    } else {
      Fifo(rings, events, n - 1);
      var r, e := rings[n - 1], events[n - 1];
      assert IsStep(r, e, rings[n - 1 + 1]);
      StepKeepsQueue(r, e);
      var d := if e == Advance then r.held else [];
      assert Delivered(rings, events, n) + Pending(rings[n]) ==
        Delivered(rings, events, n - 1) + (d + Pending(rings[n]));
    }
  }

  // ----- The variables themselves ------------------------------------------------------

  lemma PendingSame(r: Ring, held: seq<char>)
    requires |r.buffer| == BUFFER_SIZE
    ensures Pending(r.(held := held)) == Pending(r)
  {
  }

  class KeyboardBuffer {
    const buffer: array<char>
    var read: nat
    var write: nat

    /** The ring, with what getchar holds in its local variable. */
    ghost function View(held: seq<char>): Ring
      reads this, buffer
    {
      Ring(buffer[..], read, write, held)
    }

    constructor ()
      ensures Valid(View([])) && Pending(View([])) == [] && fresh(buffer)
    {
      buffer := new char[256](i => '\0');
      read, write := 0, 0;
    }

    /** keyboard_handler, from "add to buffer if valid" on. */
    method Push(ascii: char, ghost held: seq<char>)
      requires Valid(View(held))
      modifies this, buffer
      ensures View(held) == Pushed(old(View(held)), ascii)
    {
      if ascii != '\0' {
        var next := (write + 1) % BUFFER_SIZE;
        if next != read {
          buffer[write] := ascii;
          write := next;
        }
      }
    }

    /** keyboard_available. */
    method Available() returns (some: bool)
      requires Valid(View([]))
      ensures some <==> Pending(View([])) != []
    {
      some := read != write;
    }

    /** The first half of keyboard_getchar, once a character is available. */
    method Fetch() returns (c: char)
      requires Valid(View([])) && read != write
      ensures View([c]) == Fetched(View([]))
    {
      c := buffer[read];
    }

    /** The second half. */
    method Advance(ghost held: seq<char>)
      requires Valid(View(held))
      modifies this`read
      ensures View([]) == Advanced(old(View(held)))
    {
      read := (read + 1) % BUFFER_SIZE;
    }

    /** keyboard_getchar, which halts until an interrupt while there is nothing to
        read; `interrupts` are the ones that come meanwhile. It returns the oldest
        pending character, or else the first that arrives, or is still waiting
        when they are used up. No interrupt comes between the two halves. */
    method GetChar(interrupts: seq<char>) returns (c: Option<char>, served: nat)
      requires Valid(View([]))
      modifies this, buffer
      ensures Valid(View([])) && served <= |interrupts|
      ensures old(Pending(View([]))) != [] ==>
        served == 0 && c.Some? && [c.value] + Pending(View([])) == old(Pending(View([])))
      ensures old(Pending(View([]))) == [] ==>
        && Pending(View([])) == []
        && (forall i :: 0 <= i < served - 1 ==> interrupts[i] == '\0')
        && (c.Some? ==> served > 0 && c.value == interrupts[served - 1] != '\0')
        && (c.None? ==> served == |interrupts| && (served > 0 ==> interrupts[served - 1] == '\0'))
    {
      hide Pending, Pushed, Fetched, Advanced;
      served := 0;
      PendingCount(View([]));
      while read == write && served < |interrupts|
        invariant served <= |interrupts| && Valid(View([]))
        invariant old(Pending(View([]))) != [] ==> served == 0 && View([]) == old(View([]))
        invariant old(Pending(View([]))) == [] ==>
          && (forall i :: 0 <= i < served - 1 ==> interrupts[i] == '\0')
          && Pending(View([])) == if served > 0 && interrupts[served - 1] != '\0' then [interrupts[served - 1]] else []
        invariant read == write <==> Pending(View([])) == []
        decreases |interrupts| - served
      {
        PushAppends(View([]), interrupts[served]);
        Push(interrupts[served], []);
        served := served + 1;
        PendingCount(View([]));
      }
      if read == write { return None, served; }
      FetchSeesOldest(View([]));
      var ch := Fetch();
      AdvanceDrops(View([ch]));
      PendingSame(View([]), [ch]);
      Advance([ch]);
      c := Some(ch);
    }
  }
}
