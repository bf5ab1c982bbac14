/** The kernel heap (src/alloc.c): kmalloc, kfree, kcalloc and krealloc over byte memory.

    The heap is seen as a set of live blocks and the bytes they hold.  The scan of the
    heap bitmap covers 8192 units of one byte above `bottom`. */
module Heap {
  import opened Bitmap
  import opened SlotTable
  import opened Allocator
  import opened Memory

  const KERNEL_BITMAP_CAPACITY: nat := 1024
  const HEAP_UNITS: nat := 8192

  function HeapConfig(bottom: nat): Config {
    Config(bottom, 1, true, KERNEL_BITMAP_CAPACITY)
  }

  /** What a caller can see of the heap. */
  datatype View = View(bottom: nat, live: set<Block>, mem: seq<byte>)

  ghost predicate Placed(v: View, b: Block) {
    && b.range.length > 0 && b.range.start % 4 == 0
    && b.range.start + b.range.length <= HEAP_UNITS
    && b.base == v.bottom + b.range.start
  }

  /** Live blocks are aligned, lie in the scanned window and do not meet each other. */
  ghost predicate Sound(v: View) {
    && |v.mem| == 2 * HEAP_UNITS
    && (forall b :: b in v.live ==> Placed(v, b))
    && forall a, b :: a in v.live && b in v.live && a != b ==> Apart(a.range, b.range) && a.base != b.base
  }

  ghost function Contents(v: View, b: Block): seq<byte>
    requires Sound(v) && b in v.live
  {
    assert Placed(v, b);
    v.mem[b.range.start..b.range.start + b.range.length]
  }

  /** Every live block except those at `gone` is still live and holds the same bytes. */
  ghost predicate Keeps(v: View, v': View, gone: set<nat>) {
    && Sound(v) && Sound(v') && v'.bottom == v.bottom
    && forall b :: b in v.live && b.base !in gone ==> b in v'.live && Contents(v', b) == Contents(v, b)
  }

  lemma KeepsTransitive(v0: View, v1: View, v2: View, g0: set<nat>, g1: set<nat>)
    requires Keeps(v0, v1, g0) && Keeps(v1, v2, g1)
    ensures Keeps(v0, v2, g0 + g1)
  {
  }

  /** The table invariant makes the view sound. */
  lemma LivePlaced(bottom: nat, t: Table, mem: seq<byte>)
    requires Valid(HeapConfig(bottom), t) && |mem| == 2 * HEAP_UNITS
    ensures Sound(View(bottom, Live(t), mem))
  {
    var v := View(bottom, Live(t), mem);
    forall b | b in Live(t)
      ensures Placed(v, b)
    {
      var j: nat :| j < |t.entries| && t.entries[j].utilized && b == Block(t.entries[j].base, t.entries[j].range);
      assert EntryOk(HeapConfig(bottom), t.entries[j]);
    }
    forall a, b | a in Live(t) && b in Live(t) && a != b
      ensures Apart(a.range, b.range) && a.base != b.base
    {
      var i: nat :| i < |t.entries| && t.entries[i].utilized && a == Block(t.entries[i].base, t.entries[i].range);
      var j: nat :| j < |t.entries| && t.entries[j].utilized && b == Block(t.entries[j].base, t.entries[j].range);
      assert i < j || j < i;
    }
  }

  class KernelHeap {
    const slots: SlotAllocator
    const mem: array<byte>

    ghost predicate Ok()
      reads slots, slots.entries, slots.bitmap
    {
      && slots.cfg == HeapConfig(slots.cfg.bottom) && slots.cfg.bottom + HEAP_UNITS <= ADDRESS_SPACE
      && slots.Sized() && slots.active && slots.bitmap.Length == KERNEL_BITMAP_CAPACITY
      && Valid(slots.cfg, slots.Contents())
      && mem.Length == 2 * HEAP_UNITS
      && mem as object != slots.bitmap && mem as object != slots.entries
    }

    ghost function See(): (v: View)
      requires Ok()
      reads slots, slots.entries, slots.bitmap, mem
      ensures Sound(v)
    {
      LivePlaced(slots.cfg.bottom, slots.Contents(), mem[..]);
      View(slots.cfg.bottom, Live(slots.Contents()), mem[..])
    }

    /** The second half of initialize_allocator, given the page for the heap. */
    constructor (bottom: nat)
      requires bottom + HEAP_UNITS <= ADDRESS_SPACE
      ensures Ok() && See().live == {} && See().bottom == bottom
      ensures fresh(slots) && fresh(slots.entries) && fresh(slots.bitmap) && fresh(mem)
    {
      slots := new SlotAllocator(HeapConfig(bottom), KERNEL_BITMAP_CAPACITY);
      mem := new byte[2 * HEAP_UNITS](_ => 0);
      new;
      ghost var t := slots.Contents();
      assert Run(slots.cfg, [t], []);
      RunRefines(slots.cfg, [t], [], 0);
    }

    /** kmalloc. */
    method Kmalloc(size: nat) returns (r: Outcome)
      requires Ok()
      modifies slots.entries, slots.bitmap
      ensures r.Halted? <==> Refuses(slots.cfg, old(See().live), size)
      ensures r.Returned? ==> Ok() && Granted(old(See()), See(), size, r.ptr)
    {
      ghost var t := slots.Contents();
      ghost var m := mem[..];
      LiveSize(slots.cfg, t);
      if size > 0 {
        NoRoomIsNoFit(slots.cfg, t, size);
      }
      r := slots.Allocate(size);
      if r.Returned? {
        ghost var start: nat, k: nat :|
          AllocStep(slots.cfg, t, size, start, k, slots.Contents()) && r.ptr == slots.cfg.Address(start);
        GrantedFromStep(slots.cfg.bottom, t, m, size, start, k, slots.Contents());
      }
    }

    /** kfree of a pointer that is live. */
    method Kfree(ptr: nat) returns (r: Outcome)
      requires Ok() && exists b :: b in See().live && b.base == ptr
      modifies slots.entries, slots.bitmap
      ensures r.Returned? && Ok()
      ensures See().mem == old(See().mem) && See().bottom == old(See().bottom)
      ensures See().live == set b | b in old(See().live) && b.base != ptr
    {
      ghost var v := See();
      ghost var t := slots.Contents();
      ghost var b :| b in v.live && b.base == ptr;
      LiveHasSlot(t, b);
      r := slots.Free(ptr);
      assert r.Returned?;
      ghost var k: nat :| FreeStep(t, ptr, k, slots.Contents());
      FreeKeeps(slots.cfg, t, ptr, k, slots.Contents());
    }

    /** kcalloc.  The product of its arguments is taken in 32 bits. */
    method Kcalloc(num: nat, size: nat) returns (r: Outcome)
      requires Ok()
      modifies slots.entries, slots.bitmap, mem
      ensures r.Halted? <==> Refuses(slots.cfg, old(See().live), num * size % ADDRESS_SPACE)
      ensures r.Returned? ==>
              && Ok() && See().bottom == old(See().bottom) <= r.ptr
              && var b := Block(r.ptr, BitRange(r.ptr - See().bottom, num * size % ADDRESS_SPACE));
              && b.range.start == FirstRoom(slots.cfg, old(See().live), b.range.length)
              && (forall o :: o in old(See().live) ==> o.base != r.ptr)
              && See().live == old(See().live) + {b}
              && Contents(See(), b) == seq(b.range.length, _ => 0)
              && Keeps(old(See()), See(), {})
    {
      hide Valid, Sound, FirstRoom, NoRoom, Live;
      var n := num * size % ADDRESS_SPACE;
      ghost var v := See();
      r := Kmalloc(n);
      if r.Returned? {
        ghost var v1 := See();
        MemSet(mem, r.ptr - slots.cfg.bottom, 0, n);
        ghost var b := Block(r.ptr, BitRange(r.ptr - v.bottom, n));
        WriteKeepsOthers(v1, See(), b);
        KeepsTransitive(v, v1, See(), {}, {r.ptr});
      }
    }

    /** krealloc of a live pointer: the old block is released before its bytes are moved. */
    method Krealloc(ptr: nat, newSize: nat) returns (r: Outcome)
      requires Ok() && exists b :: b in See().live && b.base == ptr
      modifies slots.entries, slots.bitmap, mem
      ensures r.Halted? <==> Refuses(slots.cfg, old(See().live), newSize)
      ensures r.Returned? ==>
              forall b :: b in old(See().live) && b.base == ptr ==>
                Ok() && Reallocated(old(See()), See(), b, newSize, r.ptr)
    {
      hide Valid, Sound, Reallocated, Granted, FirstRoom, Refuses, Keeps, Moved, Live;
      ghost var v := See();
      ghost var b :| b in v.live && b.base == ptr;
      OneBlock(v, b);
      r := Kmalloc(newSize);
      if r.Halted? {
        return;
      }
      ghost var v1 := See();
      GrantedBounds(v, v1, newSize, r.ptr, b);
      var length := LengthOf(ptr, b);
      var freed := Kfree(ptr);
      MemMove(mem, r.ptr - slots.cfg.bottom, ptr - slots.cfg.bottom, length);
      ReallocLive(v, v1, b, newSize, r.ptr);
      ReallocFacts(v, b, newSize, r.ptr);
    }

    /** The length recorded for a live pointer: the search krealloc shares with kfree. */
    method LengthOf(ptr: nat, ghost b: Block) returns (length: nat)
      requires Ok() && b in See().live && b.base == ptr
      ensures length == b.range.length
    {
      ghost var t := slots.Contents();
      LiveHasSlot(t, b);
      var entry := 0;
      while slots.entries[entry].base != ptr
        invariant entry < MAX_ALLOCATIONS
        invariant forall i: nat :: i < entry ==> slots.entries[i].base != ptr
        decreases MAX_ALLOCATIONS - entry
      {
        entry := entry + 1;
      }
      LiveSlot(slots.cfg, t, b, entry);
      return slots.entries[entry].range.length;
    }
  }

  lemma OneBlock(v: View, b: Block)
    requires Sound(v) && b in v.live
    ensures forall o :: o in v.live && o.base == b.base ==> o == b
  {
  }

  lemma GrantedBounds(v: View, v': View, size: nat, ptr: nat, b: Block)
    requires Sound(v) && b in v.live && Granted(v, v', size, ptr)
    ensures b in v'.live && v.bottom <= ptr && |v.mem| == 2 * HEAP_UNITS
    ensures b.base == v.bottom + b.range.start && b.range.start + b.range.length <= HEAP_UNITS
    ensures ptr - v.bottom + b.range.length <= |v.mem|
  {
    hide FirstRoom;
    assert Placed(v, b);
  }

  lemma LiveSlot(c: Config, t: Table, b: Block, k: nat)
    requires Valid(c, t) && b in Live(t) && IsFirstMatch(t.entries, b.base, k)
    ensures t.entries[k].range == b.range
  {
    LiveHasSlot(t, b);
    SearchFindsLive(c, t, b.base, k);
  }

  /** A change confined to one live block leaves the others alone. */
  lemma WriteKeepsOthers(v: View, v': View, b: Block)
    requires Sound(v) && b in v.live && v' == v.(mem := v'.mem) && |v'.mem| == |v.mem|
    requires forall i :: 0 <= i < |v.mem| && !(b.range.start <= i < b.range.start + b.range.length) ==>
               v'.mem[i] == v.mem[i]
    ensures Keeps(v, v', {b.base})
  {
    forall o | o in v.live && o != b
      ensures Contents(v', o) == Contents(v, o)
    {
      assert Apart(o.range, b.range);
      assert Placed(v, o);
    }
  }

  /** The heap after krealloc of block `b`, whose new block starts at `s`: as many bytes as
      the old block had are moved there. */
  ghost function AfterRealloc(v: View, b: Block, newSize: nat, s: nat): View
    requires s + b.range.length <= |v.mem| && b.range.start + b.range.length <= |v.mem|
  {
    View(v.bottom, v.live - {b} + {Block(v.bottom + s, BitRange(s, newSize))},
         Moved(v.mem, s, b.range.start, b.range.length))
  }

  lemma ReallocSound(v: View, b: Block, newSize: nat)
    requires Sound(v) && b in v.live && !Refuses(HeapConfig(v.bottom), v.live, newSize)
    ensures b.range.start + b.range.length <= |v.mem|
    ensures var s := FirstRoom(HeapConfig(v.bottom), v.live, newSize);
            s + b.range.length <= |v.mem| && Sound(AfterRealloc(v, b, newSize, s))
  {
    assert Placed(v, b);
    var s := FirstRoom(HeapConfig(v.bottom), v.live, newSize);
    var v', n := AfterRealloc(v, b, newSize, s), Block(v.bottom + s, BitRange(s, newSize));
    forall o | o in v'.live
      ensures Placed(v', o) && (o != n ==> Apart(o.range, n.range) && o.base != n.base)
    {
      assert o != n ==> Placed(v, o) && Apart(o.range, n.range);
    }
  }

  /** The new block starts at the first place with room, and begins with the old bytes, as
      far as it reaches.  When it is no smaller, every other block is as it was. */
  ghost predicate Reallocated(v: View, v': View, b: Block, newSize: nat, ptr: nat)
    requires Sound(v) && b in v.live
  {
    && !Refuses(HeapConfig(v.bottom), v.live, newSize)
    && var s := FirstRoom(HeapConfig(v.bottom), v.live, newSize);
    && ptr == v.bottom + s
    && var n := Block(ptr, BitRange(s, newSize));
    && (forall o :: o in v.live ==> o.base != ptr)
    && b.range.start + b.range.length <= |v.mem| && s + b.range.length <= |v.mem|
    && v' == AfterRealloc(v, b, newSize, s) && Sound(v')
    && SameBytes(Contents(v', n), Contents(v, b))
    && (b.range.length <= newSize ==> Keeps(v, v', {b.base}))
  }

  /** One of the two is the beginning of the other. */
  predicate SameBytes(x: seq<byte>, y: seq<byte>) {
    if |y| <= |x| then x[..|y|] == y else x == y[..|x|]
  }

  /** Every block but `b` lies clear of the stretch that the move writes. */
  ghost predicate MoveIsClear(v: View, b: Block, newSize: nat)
    requires !NoRoom(HeapConfig(v.bottom), v.live, newSize)
  {
    var s := FirstRoom(HeapConfig(v.bottom), v.live, newSize);
    forall o :: o in v.live && o != b ==> Apart(o.range, BitRange(s, b.range.length))
  }

  /** krealloc leaves every other block alone, whatever the memory holds, if and only if the
      bytes it moves, all of the old block's, fit between the first place with room and the
      next block.  They always do when the new size is no smaller. */
  lemma ReallocKeepsIff(v: View, b: Block, newSize: nat)
    requires Sound(v) && b in v.live && !Refuses(HeapConfig(v.bottom), v.live, newSize)
    ensures var s := FirstRoom(HeapConfig(v.bottom), v.live, newSize);
            && b.range.start + b.range.length <= |v.mem| && s + b.range.length <= |v.mem|
            && ((forall m: seq<byte> :: |m| == |v.mem| ==>
                   Keeps(v.(mem := m), AfterRealloc(v.(mem := m), b, newSize, s), {b.base}))
                <==> MoveIsClear(v, b, newSize))
    ensures b.range.length <= newSize ==> MoveIsClear(v, b, newSize)
  {
    hide FirstRoom, NoRoom, Sound, Keeps, AfterRealloc, HeapConfig;
    var s := FirstRoom(HeapConfig(v.bottom), v.live, newSize);
    ReallocSound(v, b, newSize);
    if b.range.length <= newSize {
      GrowIsClear(v, b, newSize);
    }
    if MoveIsClear(v, b, newSize) {
      forall m: seq<byte> | |m| == |v.mem|
        ensures Keeps(v.(mem := m), AfterRealloc(v.(mem := m), b, newSize, s), {b.base})
      {
        OtherBytes(v, m);
        ClearMoveKeeps(v.(mem := m), b, newSize);
      }
    } else {
      var o :| o in v.live && o != b && !Apart(o.range, BitRange(s, b.range.length));
      var m := MovedOver(v, b, newSize, o);
    }
  }

  lemma OtherBytes(v: View, m: seq<byte>)
    requires Sound(v) && |m| == |v.mem|
    ensures Sound(v.(mem := m))
  {
  }

  lemma GrowIsClear(v: View, b: Block, newSize: nat)
    requires b.range.length <= newSize && !NoRoom(HeapConfig(v.bottom), v.live, newSize)
    ensures MoveIsClear(v, b, newSize)
  {
    hide FirstRoom;
  }

  lemma ClearMoveKeeps(v: View, b: Block, newSize: nat)
    requires Sound(v) && b in v.live && !Refuses(HeapConfig(v.bottom), v.live, newSize) && MoveIsClear(v, b, newSize)
    ensures var s := FirstRoom(HeapConfig(v.bottom), v.live, newSize);
            && b.range.start + b.range.length <= |v.mem| && s + b.range.length <= |v.mem|
            && Keeps(v, AfterRealloc(v, b, newSize, s), {b.base})
  {
    hide FirstRoom, Refuses;
    ReallocSound(v, b, newSize);
    var s := FirstRoom(HeapConfig(v.bottom), v.live, newSize);
    forall o | o in v.live && o.base != b.base
      ensures Contents(AfterRealloc(v, b, newSize, s), o) == Contents(v, o)
    {
      assert Placed(v, o);
      MovedApart(v.mem, s, b.range.start, b.range.length, o.range);
    }
  }

  /** Contents for which the move changes block `o`, some byte of which it writes. */
  lemma MovedOver(v: View, b: Block, newSize: nat, o: Block) returns (m: seq<byte>)
    requires Sound(v) && b in v.live && o in v.live && o != b && !Refuses(HeapConfig(v.bottom), v.live, newSize)
    requires !Apart(o.range, BitRange(FirstRoom(HeapConfig(v.bottom), v.live, newSize), b.range.length))
    ensures |m| == |v.mem|
    ensures var s := FirstRoom(HeapConfig(v.bottom), v.live, newSize);
            && b.range.start + b.range.length <= |v.mem| && s + b.range.length <= |v.mem|
            && var v', w := AfterRealloc(v.(mem := m), b, newSize, s), v.(mem := m);
            && Sound(v') && Sound(w) && o in v'.live && Contents(v', o) != Contents(w, o)
            && !Keeps(w, v', {b.base})
  {
    hide FirstRoom, Moved, NoRoom;
    ReallocSound(v, b, newSize);
    var s := FirstRoom(HeapConfig(v.bottom), v.live, newSize);
    assert Placed(v, o) && Placed(v, b);
    assert s != b.range.start by {
      assert Apart(b.range, BitRange(s, newSize));
    }
    hide IsFirstRoom;
    m := BytesMovedOver(|v.mem|, s, b.range.start, b.range.length, o.range);
    OtherBytes(v, m);
    ReallocSound(v.(mem := m), b, newSize);
  }

  lemma BytesMovedOver(size: nat, dst: nat, src: nat, count: nat, o: BitRange) returns (m: seq<byte>)
    requires dst + count <= size && src + count <= size && o.start + o.length <= size && dst != src
    requires o.length > 0 && count > 0 && !Apart(o, BitRange(dst, count))
    ensures |m| == size
    ensures Moved(m, dst, src, count)[o.start..o.start + o.length] != m[o.start..o.start + o.length]
  {
    hide Moved;
    var i := if o.start < dst then dst else o.start;
    var from := src + (i - dst);
    m := seq(size, j => if j == from then 1 else 0);
    MovedAt(m, dst, src, count, i);
    SliceDiffers(Moved(m, dst, src, count), m, o.start, o.length, i);
  }

  lemma MovedApart(m: seq<byte>, dst: nat, src: nat, count: nat, o: BitRange)
    requires dst + count <= |m| && src + count <= |m| && o.start + o.length <= |m| && Apart(o, BitRange(dst, count))
    ensures Moved(m, dst, src, count)[o.start..o.start + o.length] == m[o.start..o.start + o.length]
  {
  }

  lemma SliceDiffers(a: seq<byte>, b: seq<byte>, start: nat, length: nat, i: nat)
    requires |a| == |b| && start + length <= |a| && start <= i < start + length && a[i] != b[i]
    ensures a[start..start + length] != b[start..start + length]
  {
    assert a[start..start + length][i - start] == a[i] && b[start..start + length][i - start] == b[i];
  }

  lemma ReallocFacts(v: View, b: Block, newSize: nat, ptr: nat)
    requires Sound(v) && b in v.live && !Refuses(HeapConfig(v.bottom), v.live, newSize)
    requires ptr == v.bottom + FirstRoom(HeapConfig(v.bottom), v.live, newSize)
    requires forall o :: o in v.live ==> o.base != ptr
    requires b.range.start + b.range.length <= |v.mem| && ptr - v.bottom + b.range.length <= |v.mem|
    ensures Reallocated(v, AfterRealloc(v, b, newSize, ptr - v.bottom), b, newSize, ptr)
  {
    hide FirstRoom, IsFirstRoom, NoRoom, Keeps, HeapConfig, Sound;
    var v', n := AfterRealloc(v, b, newSize, ptr - v.bottom), Block(ptr, BitRange(ptr - v.bottom, newSize));
    ReallocSound(v, b, newSize);
    ReallocBytes(v, v', b, n);
    if b.range.length <= newSize {
      GrowIsClear(v, b, newSize);
      ClearMoveKeeps(v, b, newSize);
    }
  }

  lemma ReallocBytes(v: View, v': View, b: Block, n: Block)
    requires Sound(v) && Sound(v') && b in v.live && n in v'.live && v'.bottom == v.bottom
    requires b.range.start + b.range.length <= |v.mem| && n.range.start + b.range.length <= |v.mem|
    requires v'.mem == Moved(v.mem, n.range.start, b.range.start, b.range.length)
    ensures SameBytes(Contents(v', n), Contents(v, b))
  {
    assert Placed(v, b) && Placed(v', n);
    hide Sound;
    MovedInto(v.mem, n.range.start, b.range.start, b.range.length, n.range.length);
  }

  lemma ReallocLive(v: View, v1: View, b: Block, newSize: nat, ptr: nat)
    requires Sound(v) && b in v.live && Granted(v, v1, newSize, ptr)
    ensures (set o | o in v1.live && o.base != b.base) == v.live - {b} + {Block(ptr, BitRange(ptr - v.bottom, newSize))}
    ensures v1.mem == v.mem && v1.bottom == v.bottom && forall o :: o in v.live ==> o.base != ptr
    ensures !NoRoom(HeapConfig(v.bottom), v.live, newSize)
    ensures ptr == v.bottom + FirstRoom(HeapConfig(v.bottom), v.live, newSize)
  {
    hide FirstRoom, Keeps;
  }

  lemma MovedInto(m: seq<byte>, dst: nat, src: nat, count: nat, size: nat)
    requires dst + count <= |m| && src + count <= |m| && dst + size <= |m|
    ensures var m' := Moved(m, dst, src, count);
            SameBytes(m'[dst..dst + size], m[src..src + count])
  {
    var m' := Moved(m, dst, src, count);
    var k := if count <= size then count else size;
    SliceTwice(m', dst, size, k);
    SliceTwice(m', dst, count, k);
    SliceTwice(m, src, count, k);
    var x, y := m'[dst..dst + k], m[src..src + k];
    forall i | 0 <= i < k
      ensures x[i] == y[i]
    {
      MovedAt(m, dst, src, count, dst + i);
    }
    assert x == y;
  }

  lemma SliceTwice(m: seq<byte>, at: nat, size: nat, k: nat)
    requires at + size <= |m| && k <= size
    ensures m[at..at + size][..k] == m[at..at + k]
  {
  }

  lemma GrantedFromStep(bottom: nat, t: Table, m: seq<byte>, size: nat, start: nat, k: nat, t': Table)
    requires bottom + HEAP_UNITS <= ADDRESS_SPACE && |m| == 2 * HEAP_UNITS
    requires Valid(HeapConfig(bottom), t) && AllocStep(HeapConfig(bottom), t, size, start, k, t')
    ensures Valid(HeapConfig(bottom), t')
    ensures Granted(View(bottom, Live(t), m), View(bottom, Live(t'), m), size, HeapConfig(bottom).Address(start))
  {
    hide Valid, Live, FirstRoom, Sound;
    AllocKeeps(HeapConfig(bottom), t, size, start, k, t');
    LivePlaced(bottom, t, m);
    LivePlaced(bottom, t', m);
    FirstFitIsRoom(HeapConfig(bottom), t, size, start);
    hide AllocStep;
    assert HeapConfig(bottom).Address(start) == bottom + start;
  }

  lemma FirstFitIsRoom(c: Config, t: Table, size: nat, start: nat)
    requires Valid(c, t) && size > 0 && IsFirstFit(t.bits, Scanned(c.capacity), size, c.aligned, start)
    ensures !NoRoom(c, Live(t), size) && start == FirstRoom(c, Live(t), size)
  {
    hide Valid, Live, Room, Fits, FirstRoom;
    forall s: nat
      ensures Room(c, Live(t), size, s) <==> Fits(t.bits, Scanned(c.capacity), size, c.aligned, s)
    {
      RoomIsFit(c, t, size, s);
    }
  }

  /** The heap can hold one block of up to 8192 bytes, at its bottom. */
  lemma EmptyHeap(bottom: nat, size: nat)
    ensures Refuses(HeapConfig(bottom), {}, size) <==> size == 0 || size > 8192
    ensures !Refuses(HeapConfig(bottom), {}, size) ==> FirstRoom(HeapConfig(bottom), {}, size) == 0
  {
    hide FirstRoom;
    assert Room(HeapConfig(bottom), {}, size, 0) <==> size <= 8192;
  }

  // ------------------------------------------------------ a shrinking krealloc

  /** A table with given first three slots, all others unused. */
  ghost function ThreeSlots(a: AllocEntry, b: AllocEntry, c: AllocEntry, bits: set<nat>): Table {
    Table([a, b, c] + seq(MAX_ALLOCATIONS - 3, _ => UNUSED), bits)
  }

  const SHRINK: seq<Op> := [Alloc(4), Alloc(4), Alloc(32)]

  /** Blocks of 4, 4 and 32 bytes are granted, one after the other. */
  lemma ThreeGrants(bottom: nat) returns (ts: seq<Table>)
    requires bottom + HEAP_UNITS <= ADDRESS_SPACE
    ensures Run(HeapConfig(bottom), ts, SHRINK) && Zeroed(ts[0])
    ensures ts[3] == ThreeSlots(AllocEntry(bottom, BitRange(0, 4), true), AllocEntry(bottom + 4, BitRange(4, 4), true),
                                AllocEntry(bottom + 8, BitRange(8, 32), true), Span(0, 40))
  {
    var c := HeapConfig(bottom);
    var x, y := AllocEntry(bottom, BitRange(0, 4), true), AllocEntry(bottom + 4, BitRange(4, 4), true);
    var z := AllocEntry(bottom + 8, BitRange(8, 32), true);
    var t0, t1 := ThreeSlots(UNUSED, UNUSED, UNUSED, {}), ThreeSlots(x, UNUSED, UNUSED, Span(0, 4));
    var t2, t3 := ThreeSlots(x, y, UNUSED, Span(0, 8)), ThreeSlots(x, y, z, Span(0, 40));
    FitsAt({}, HEAP_UNITS, 4, 0);
    FitsAt(Span(0, 4), HEAP_UNITS, 4, 4);
    FitsAt(Span(0, 8), HEAP_UNITS, 32, 8);
    assert AllocStep(c, t0, 4, 0, 0, t1);
    assert AllocStep(c, t1, 4, 4, 1, t2);
    assert AllocStep(c, t2, 32, 8, 2, t3);
    ts := [t0, t1, t2, t3];
    hide AllocStep, ThreeSlots;
  }

  /** After four calls that return, krealloc of the block of 32 bytes to 4 bytes destroys
      the block in between: its new place is the one of the block that was freed. */
  lemma ShrinkBreaks(bottom: nat) returns (ts: seq<Table>, v: View, b: Block, o: Block)
    requires bottom + HEAP_UNITS <= ADDRESS_SPACE
    ensures Run(HeapConfig(bottom), ts, SHRINK + [Free(bottom)]) && Zeroed(ts[0])
    ensures v.bottom == bottom && v.live == Live(ts[4]) == {o, b} && Sound(v)
    ensures b == Block(bottom + 8, BitRange(8, 32)) && o == Block(bottom + 4, BitRange(4, 4))
    ensures !Refuses(HeapConfig(bottom), v.live, 4) && FirstRoom(HeapConfig(bottom), v.live, 4) == 0
    ensures var v' := AfterRealloc(v, b, 4, 0); Sound(v') && o in v'.live && Contents(v', o) != Contents(v, o)
  {
    hide Run, Zeroed, Live, FirstRoom, ThreeSlots;
    ts := FourCalls(bottom);
    b, o := Block(bottom + 8, BitRange(8, 32)), Block(bottom + 4, BitRange(4, 4));
    v := View(bottom, {o, b}, seq(2 * HEAP_UNITS, _ => 0));
    assert |v.live| == 2;
    assert Room(HeapConfig(bottom), v.live, 4, 0);
    var m := MovedOver(v, b, 4, o);
    v := v.(mem := m);
  }

  /** The three grants, and the release of the first block. */
  lemma FourCalls(bottom: nat) returns (ts: seq<Table>)
    requires bottom + HEAP_UNITS <= ADDRESS_SPACE
    ensures Run(HeapConfig(bottom), ts, SHRINK + [Free(bottom)]) && Zeroed(ts[0])
    ensures Live(ts[4]) == {Block(bottom + 4, BitRange(4, 4)), Block(bottom + 8, BitRange(8, 32))}
  {
    var t3s := ThreeGrants(bottom);
    var y, z := AllocEntry(bottom + 4, BitRange(4, 4), true), AllocEntry(bottom + 8, BitRange(8, 32), true);
    var t4 := ThreeSlots(AllocEntry(bottom, BitRange(0, 4), false), y, z, Span(4, 36));
    assert t3s[3].entries[0].utilized;
    assert FreeStep(t3s[3], bottom, 0, t4);
    ts := t3s + [t4];
    LiveOfThree(t4, y, z);
  }

  lemma LiveOfThree(t: Table, y: AllocEntry, z: AllocEntry)
    requires |t.entries| >= 3 && t.entries[1] == y && t.entries[2] == z && y.utilized && z.utilized
    requires forall j: nat :: j < |t.entries| && j != 1 && j != 2 ==> !t.entries[j].utilized
    ensures Live(t) == {Block(y.base, y.range), Block(z.base, z.range)}
  {
    assert t.entries[1].utilized && t.entries[2].utilized;
  }

  lemma LiveHasSlot(t: Table, b: Block)
    requires b in Live(t)
    ensures IsLive(t, b.base)
    ensures exists j: nat :: j < |t.entries| && t.entries[j].base == b.base
  {
  }

  /** `v'` is `v` with one more block of `size` bytes at `ptr`: the first place with room. */
  ghost predicate Granted(v: View, v': View, size: nat, ptr: nat) {
    && !NoRoom(HeapConfig(v.bottom), v.live, size)
    && ptr == v.bottom + FirstRoom(HeapConfig(v.bottom), v.live, size)
    && var b := Block(ptr, BitRange(ptr - v.bottom, size));
    && v' == v.(live := v.live + {b})
    && (forall o :: o in v.live ==> o.base != ptr)
    && Keeps(v, v', {})
  }
}
