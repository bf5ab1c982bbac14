/** The keyboard ring buffer: filled by the interrupt handlers of src/io.c, drained by the
    read loop of tty_handler in src/file_handlers.c.

    The interrupt handler runs to completion, but it may run between any two steps of the
    loop.  The protocol is modelled as interleaved steps; the handlers and the loop in their
    own form are the methods of the class below. */
module RingBuffer {
  import opened Memory

  const CAPACITY: nat := 64

  datatype Ring = Ring(buffer: seq<byte>, inIndex: nat, outIndex: nat)

  ghost predicate RingOk(r: Ring) {
    |r.buffer| == CAPACITY && r.inIndex < CAPACITY && r.outIndex < CAPACITY
  }

  function Count(r: Ring): nat
    requires RingOk(r)
  {
    if r.outIndex <= r.inIndex then r.inIndex - r.outIndex else r.inIndex + CAPACITY - r.outIndex
  }

  /** The index of the k-th unread slot. */
  function SlotAt(r: Ring, k: nat): nat {
    (r.outIndex + k) % CAPACITY
  }

  /** The characters that have been put and not taken, oldest first. */
  ghost function Pending(r: Ring): (s: seq<byte>)
    requires RingOk(r)
    ensures |s| == Count(r)
  {
    seq(Count(r), k requires 0 <= k < Count(r) => r.buffer[SlotAt(r, k)])
  }

  /** The store of the interrupt handlers: dropped when the next index would catch up. */
  function Put(r: Ring, c: byte): Ring
    requires RingOk(r)
  {
    var next := (r.inIndex + 1) % CAPACITY;
    if next != r.outIndex then Ring(r.buffer[r.inIndex := c], next, r.outIndex) else r
  }

  function Take(r: Ring): Ring {
    r.(outIndex := (r.outIndex + 1) % CAPACITY)
  }

  /** A character is accepted behind the pending ones, none of which is touched; it is
      dropped exactly when 63 are pending. */
  lemma PutAppends(r: Ring, c: byte)
    requires RingOk(r)
    ensures RingOk(Put(r, c))
    ensures Pending(Put(r, c)) == if Count(r) == CAPACITY - 1 then Pending(r) else Pending(r) + [c]
  {
    hide SlotAt;
    var r' := Put(r, c);
    PutCounts(r, c);
    if Count(r) != CAPACITY - 1 {
      forall k: nat | k < Count(r')
        ensures Pending(r')[k] == (Pending(r) + [c])[k]
      {
        SlotsMeet(r, r', k);
      }
    }
  }

  lemma PutCounts(r: Ring, c: byte)
    requires RingOk(r)
    ensures var r' := Put(r, c);
            && RingOk(r') && r'.outIndex == r.outIndex
            && if Count(r) == CAPACITY - 1 then r' == r
               else Count(r') == Count(r) + 1 && r'.buffer == r.buffer[r.inIndex := c]
  {
  }

  /** Of the slots from the oldest on, only the one after the last is the free one. */
  lemma SlotsMeet(r: Ring, r': Ring, k: nat)
    requires RingOk(r) && r'.outIndex == r.outIndex && k <= Count(r) < CAPACITY
    ensures SlotAt(r', k) == SlotAt(r, k) < CAPACITY
    ensures SlotAt(r, k) == r.inIndex <==> k == Count(r)
  {
    var i := r.outIndex + k;
    assert SlotAt(r, k) == if i < CAPACITY then i else i - CAPACITY;
  }

  lemma TakeRemoves(r: Ring)
    requires RingOk(r) && r.outIndex != r.inIndex
    ensures RingOk(Take(r)) && Pending(r) == [r.buffer[r.outIndex]] + Pending(Take(r))
  {
    hide SlotAt;
    var r' := Take(r);
    TakeCounts(r);
    forall k: nat | k < Count(r)
      ensures Pending(r)[k] == ([r.buffer[r.outIndex]] + Pending(r'))[k]
    {
      SlotsShift(r, k);
    }
  }

  lemma TakeCounts(r: Ring)
    requires RingOk(r) && r.outIndex != r.inIndex
    ensures RingOk(Take(r)) && Count(Take(r)) == Count(r) - 1
  {
  }

  /** The slots of the queue without its oldest character. */
  lemma SlotsShift(r: Ring, k: nat)
    requires RingOk(r) && k < Count(r)
    ensures SlotAt(r, k) < CAPACITY
    ensures if k == 0 then SlotAt(r, k) == r.outIndex else SlotAt(Take(r), k - 1) == SlotAt(r, k)
  {
    var i, first := r.outIndex + k, if r.outIndex + 1 < CAPACITY then r.outIndex + 1 else 0;
    assert SlotAt(r, k) == if i < CAPACITY then i else i - CAPACITY;
    assert Take(r).outIndex == first;
  }

  // ------------------------------------------------------------ interleaving

  /** Where the reader is: outside the loop, at the emptiness test, at the copy of the
      character, or at the update of the index. */
  datatype Pc = Idle | Test | Copy | Advance

  /** `left` is how many more characters the current call may read; `accepted` and
      `delivered` record what the handler stored and what readers received. */
  datatype System = System(ring: Ring, pc: Pc, left: nat, accepted: seq<byte>, delivered: seq<byte>)

  datatype Label = Key(c: byte) | Begin(count: nat) | Reader

  ghost function Next(s: System, l: Label): System
    requires RingOk(s.ring)
  {
    match l
    case Key(c) =>
      if c == 0 || Put(s.ring, c) == s.ring then s
      else s.(ring := Put(s.ring, c), accepted := s.accepted + [c])
    case Begin(count) => if s.pc.Idle? then s.(pc := Test, left := count) else s
    case Reader =>
      match s.pc
      case Idle => s
      case Test => if s.left == 0 || s.ring.outIndex == s.ring.inIndex then s.(pc := Idle) else s.(pc := Copy)
      case Copy => s.(pc := Advance, delivered := s.delivered + [s.ring.buffer[s.ring.outIndex]])
      case Advance => s.(pc := Test, ring := Take(s.ring), left := if s.left > 0 then s.left - 1 else 0)
  }

  ghost predicate SystemOk(s: System) {
    && RingOk(s.ring)
    && (s.pc.Copy? || s.pc.Advance? ==> s.ring.outIndex != s.ring.inIndex)
    && if s.pc.Advance?
       then s.delivered != [] && s.delivered[|s.delivered| - 1] == s.ring.buffer[s.ring.outIndex]
            && s.accepted == s.delivered[..|s.delivered| - 1] + Pending(s.ring)
       else s.accepted == s.delivered + Pending(s.ring)
  }

  lemma PutMoves(r: Ring, c: byte)
    requires RingOk(r)
    ensures Put(r, c) == r <==> Count(r) == CAPACITY - 1
    ensures Put(r, c).outIndex == r.outIndex
    ensures r.outIndex != r.inIndex ==> Put(r, c).buffer[r.outIndex] == r.buffer[r.outIndex]
    ensures r.outIndex != r.inIndex ==> Put(r, c).inIndex != r.outIndex
  {
  }

  lemma NextKeeps(s: System, l: Label)
    requires SystemOk(s)
    ensures SystemOk(Next(s, l))
  {
    hide Pending, Put, Take, Count;
    match l
    case Key(c) =>
      PutAppends(s.ring, c);
      PutMoves(s.ring, c);
      if c != 0 && Put(s.ring, c) != s.ring {
        assert s.delivered + Pending(s.ring) + [c] == s.delivered + (Pending(s.ring) + [c]);
        if s.pc.Advance? {
          var d := s.delivered[..|s.delivered| - 1];
          assert d + Pending(s.ring) + [c] == d + (Pending(s.ring) + [c]);
        }
      }
    case Begin(count) =>
    case Reader =>
      if s.pc.Copy? {
        var d := s.delivered;
        assert (d + [s.ring.buffer[s.ring.outIndex]])[..|d|] == d;
      } else if s.pc.Advance? {
        TakeRemoves(s.ring);
        var d := s.delivered[..|s.delivered| - 1];
        assert s.delivered == d + [s.ring.buffer[s.ring.outIndex]];
        assert d + ([s.ring.buffer[s.ring.outIndex]] + Pending(Take(s.ring))) == s.delivered + Pending(Take(s.ring));
      }
  }

  ghost function Run(s: System, ls: seq<Label>): (e: System)
    requires SystemOk(s)
    ensures SystemOk(e)
    decreases |ls|
  {
    if ls == [] then s
    else
      var mid := Run(s, ls[..|ls| - 1]);
      NextKeeps(mid, ls[|ls| - 1]);
      Next(mid, ls[|ls| - 1])
  }

  /** Under every interleaving: readers receive a prefix of the accepted characters, in
      order, and between calls the rest of them is exactly what is pending. */
  lemma EveryInterleaving(s: System, ls: seq<Label>)
    requires SystemOk(s)
    ensures SystemOk(Run(s, ls))
    ensures var e := Run(s, ls);
            && e.delivered <= e.accepted
            && (e.pc.Idle? ==> e.accepted == e.delivered + Pending(e.ring))
            && |e.accepted| - |e.delivered| <= CAPACITY - 1
  {
    hide Pending, Run;
    var e := Run(s, ls);
    if e.pc.Advance? {
      PendingHead(e.ring);
      var d := e.delivered[..|e.delivered| - 1];
      assert e.delivered == d + [e.delivered[|e.delivered| - 1]];
      assert e.accepted[|d|] == Pending(e.ring)[0];
    }
  }

  // ---------------------------------------------------------------- one call

  /** `ls` follows the begin of a call that asks for `count` characters, and the call has not
      returned before the last of these steps. */
  ghost predicate OneCall(s: System, count: nat, ls: seq<Label>)
    requires SystemOk(s)
  {
    && s.pc.Idle?
    && forall k: nat :: k < |ls| ==> !After(s, count, ls[..k]).pc.Idle?
  }

  ghost function After(s: System, count: nat, ls: seq<Label>): (e: System)
    requires SystemOk(s)
    ensures SystemOk(e)
  {
    NextKeeps(s, Begin(count));
    Run(Next(s, Begin(count)), ls)
  }

  function Readers(ls: seq<Label>): nat {
    if ls == [] then 0 else Readers(ls[..|ls| - 1]) + (if ls[|ls| - 1].Reader? then 1 else 0)
  }

  /** How many steps the reader may still take, and what it has delivered so far. */
  ghost predicate CallState(s: System, count: nat, ls: seq<Label>, e: System) {
    && |s.delivered| <= |e.delivered|
    && e.delivered[..|s.delivered|] == s.delivered
    && var n := |e.delivered| - |s.delivered|;
    match e.pc
    case Idle => n <= count && (n < count ==> e.ring.outIndex == e.ring.inIndex) && Readers(ls) <= 3 * n + 1
    case Test => n + e.left == count && Readers(ls) <= 3 * n
    case Copy => n + e.left == count && e.left > 0 && Readers(ls) <= 3 * n + 1
    case Advance => n + e.left == count + 1 && e.left > 0 && Readers(ls) <= 3 * n - 1
  }

  lemma {:induction false} CallKeeps(s: System, count: nat, ls: seq<Label>)
    requires SystemOk(s) && OneCall(s, count, ls)
    ensures CallState(s, count, ls, After(s, count, ls))
    decreases |ls|
  {
    if ls == [] {
      CallStarts(s, count);
    } else {
      hide CallState, SystemOk, Next, Run;
      var init, l := ls[..|ls| - 1], ls[|ls| - 1];
      assert init + [l] == ls;
      CallPrefix(s, count, ls);
      CallKeeps(s, count, init);
      CallStep(s, count, init, l, After(s, count, init));
    }
  }

  lemma CallStarts(s: System, count: nat)
    requires SystemOk(s) && s.pc.Idle?
    ensures CallState(s, count, [], After(s, count, []))
  {
    hide Pending;
  }

  lemma CallPrefix(s: System, count: nat, ls: seq<Label>)
    requires SystemOk(s) && OneCall(s, count, ls) && ls != []
    ensures var init := ls[..|ls| - 1];
            && OneCall(s, count, init) && SystemOk(After(s, count, init)) && !After(s, count, init).pc.Idle?
            && After(s, count, ls) == Next(After(s, count, init), ls[|ls| - 1])
  {
    hide SystemOk, Next;
    var init := ls[..|ls| - 1];
    forall k: nat | k < |init|
      ensures !After(s, count, init[..k]).pc.Idle?
    {
      assert init[..k] == ls[..k];
    }
  }

  lemma CallStep(s: System, count: nat, init: seq<Label>, l: Label, mid: System)
    requires SystemOk(mid) && !mid.pc.Idle? && CallState(s, count, init, mid)
    ensures CallState(s, count, init + [l], Next(mid, l))
  {
    hide Put, Take, Pending;
    assert (init + [l])[..|init|] == init;
  }

  /** One call under every interleaving with the handler: it delivers at most `count`
      characters; it returns only with `count` of them, or when its test finds the buffer
      empty; and it returns after at most 3 * count + 1 steps of its own. */
  lemma OneCallDelivers(s: System, count: nat, ls: seq<Label>)
    requires SystemOk(s) && OneCall(s, count, ls)
    ensures var e := After(s, count, ls);
            && s.delivered <= e.delivered && |e.delivered| - |s.delivered| <= count
            && (e.pc.Idle? ==> |e.delivered| - |s.delivered| == count || Pending(e.ring) == [])
            && Readers(ls) <= 3 * count + 1
  {
    hide Pending;
    var e := After(s, count, ls);
    CallKeeps(s, count, ls);
    EmptyCount(e.ring);
  }

  lemma {:induction false} NoKeyAccepts(s: System, ls: seq<Label>)
    requires SystemOk(s) && forall k: nat :: k < |ls| ==> !ls[k].Key?
    ensures Run(s, ls).accepted == s.accepted
    decreases |ls|
  {
    if ls != [] {
      NoKeyAccepts(s, ls[..|ls| - 1]);
    }
  }

  /** Without a key in between, a call that has returned has delivered exactly the first
      characters that were pending, as many as were asked for and there. */
  lemma QuietCallDelivers(s: System, count: nat, ls: seq<Label>)
    requires SystemOk(s) && OneCall(s, count, ls) && After(s, count, ls).pc.Idle?
    requires forall k: nat :: k < |ls| ==> !ls[k].Key?
    ensures var p := Pending(s.ring);
            var n := if count < |p| then count else |p|;
            && After(s, count, ls).delivered == s.delivered + p[..n]
            && Pending(After(s, count, ls).ring) == p[n..]
  {
    hide Pending, CallState;
    var e, p := After(s, count, ls), Pending(s.ring);
    OneCallDelivers(s, count, ls);
    NextKeeps(s, Begin(count));
    NoKeyAccepts(Next(s, Begin(count)), ls);
    assert s.delivered + p == e.delivered + Pending(e.ring);
    var got := e.delivered[|s.delivered|..];
    assert e.delivered == s.delivered + got;
    assert p == (s.delivered + p)[|s.delivered|..] == got + Pending(e.ring);
  }

  lemma PendingHead(r: Ring)
    requires RingOk(r) && r.outIndex != r.inIndex
    ensures Pending(r) != [] && Pending(r)[0] == r.buffer[r.outIndex]
  {
    assert SlotAt(r, 0) == r.outIndex;
  }

  /** A character is lost exactly when 63 are pending; a key without one stores nothing. */
  lemma DropsOnlyWhenFull(s: System, c: byte)
    requires SystemOk(s)
    ensures Next(s, Key(c)).accepted ==
            if c == 0 || Count(s.ring) == CAPACITY - 1 then s.accepted else s.accepted + [c]
  {
    PutMoves(s.ring, c);
  }

  // ------------------------------------------------------- in their own form

  const SHIFT_LEFT: nat := 0x2A
  const SHIFT_RIGHT: nat := 0x36

  class InputBuffer {
    const charBuffer: array<byte>
    var inIndex: nat
    var outIndex: nat
    var shiftPressed: bool

    ghost predicate Ok()
      reads this, charBuffer
    {
      charBuffer.Length == CAPACITY && inIndex < CAPACITY && outIndex < CAPACITY
    }

    ghost function View(): Ring
      reads this, charBuffer
    {
      Ring(charBuffer[..], inIndex, outIndex)
    }

    constructor ()
      ensures Ok() && Pending(View()) == [] && !shiftPressed && fresh(charBuffer)
    {
      charBuffer := new byte[CAPACITY](_ => 0);
      inIndex, outIndex, shiftPressed := 0, 0, false;
    }

    /** The tail of keyboard_handler and the whole of serial_interrupt_handler. */
    method Store(c: byte)
      requires Ok()
      modifies this`inIndex, charBuffer
      ensures Ok() && View() == old(if c == 0 then View() else Put(View(), c))
    {
      if c != 0 {
        var next := (inIndex + 1) % CAPACITY;
        if next != outIndex {
          charBuffer[inIndex] := c;
          inIndex := next;
        }
      }
    }

    /** keyboard_handler: releases and the shift keys change the shift state at most, every
        other press stores its character from the table for that state. */
    method KeyboardHandler(scancode: nat, plain: seq<byte>, shifted: seq<byte>)
      requires Ok() && scancode < 256 && |plain| == 128 && |shifted| == 128
      modifies this, charBuffer
      ensures Ok() && outIndex == old(outIndex)
      ensures shiftPressed == if scancode == SHIFT_LEFT || scancode == SHIFT_RIGHT then true
                              else if scancode == SHIFT_LEFT + 0x80 || scancode == SHIFT_RIGHT + 0x80 then false
                              else old(shiftPressed)
      ensures Pending(View()) ==
              old(if scancode >= 0x80 || scancode == SHIFT_LEFT || scancode == SHIFT_RIGHT then Pending(View())
                  else
                    var c := if shiftPressed then shifted[scancode] else plain[scancode];
                    if c == 0 || Count(View()) == CAPACITY - 1 then Pending(View()) else Pending(View()) + [c])
    {
      if scancode >= 0x80 {
        if scancode == 0xAA || scancode == 0xB6 {
          shiftPressed := false;
        }
        return;
      }
      if scancode == SHIFT_LEFT || scancode == SHIFT_RIGHT {
        shiftPressed := true;
        return;
      }
      var c := if shiftPressed then shifted[scancode] else plain[scancode];
      PutAppends(View(), c);
      Store(c);
    }

    /** The read loop of tty_handler, when no key arrives meanwhile. */
    method Read(buf: array<byte>, count: nat) returns (read: nat)
      requires Ok() && count <= buf.Length && buf != charBuffer
      modifies this`outIndex, buf
      ensures Ok() && read == old(if count < Count(View()) then count else Count(View()))
      ensures buf[..read] + Pending(View()) == old(Pending(View()))
      ensures buf[read..] == old(buf[read..])
    {
      hide Pending, Count;
      ghost var was, mem := View(), buf[..];
      read := 0;
      assert buf[..0] + Pending(View()) == Pending(was);
      while read < count && outIndex != inIndex
        invariant Ok() && read <= count
        invariant buf[..read] + Pending(View()) == Pending(was)
        invariant forall j :: read <= j < buf.Length ==> buf[j] == mem[j]
      {
        TakeRemoves(View());
        ghost var done, c := buf[..read], charBuffer[outIndex];
        OneMore(done, c, Pending(Take(View())));
        buf[read] := charBuffer[outIndex];
        outIndex := (outIndex + 1) % CAPACITY;
        read := read + 1;
        assert buf[..read] == done + [c];
      }
      EmptyCount(View());
    }
  }

  lemma EmptyCount(r: Ring)
    requires RingOk(r)
    ensures Count(r) == 0 <==> r.outIndex == r.inIndex
  {
  }

  lemma OneMore(done: seq<byte>, c: byte, rest: seq<byte>)
    ensures done + ([c] + rest) == done + [c] + rest
  {
  }
}
