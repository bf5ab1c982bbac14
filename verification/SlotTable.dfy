/** The 256-slot allocation tables of src/alloc.c, as values.

    The kernel heap and the page allocator are the same structure: a bitmap of units
    beside a table of slots.  A block is granted by first fit in the bitmap and recorded
    in the lowest slot that is not utilized; it is released by searching the table for
    its base pointer, and that search does not look at `utilized`. */
module SlotTable {
  import opened Bitmap

  const MAX_ALLOCATIONS: nat := 256
  const ADDRESS_SPACE: nat := 0x1_0000_0000

  datatype AllocEntry = AllocEntry(base: nat, range: BitRange, utilized: bool)

  /** Where the units start, how many bytes a unit has, whether blocks start at
      multiples of four, and the capacity passed to the bitmap scan. */
  datatype Config = Config(bottom: nat, unit: nat, aligned: bool, capacity: nat) {
    /** Pointer arithmetic is modulo 2^32. */
    function Address(start: nat): nat {
      (bottom + start * unit) % ADDRESS_SPACE
    }

    predicate NoWrap(start: nat) {
      unit > 0 && bottom + start * unit < ADDRESS_SPACE
    }
  }

  const UNUSED := AllocEntry(0, BitRange(0, 0), false)

  datatype Table = Table(entries: seq<AllocEntry>, bits: set<nat>)

  predicate Apart(a: BitRange, b: BitRange) {
    a.start + a.length <= b.start || b.start + b.length <= a.start
  }

  /** A block a caller holds: its pointer and the units it owns. */
  datatype Block = Block(base: nat, range: BitRange)

  /** The abstract state of the allocator: the blocks that are live. */
  ghost function Live(t: Table): set<Block> {
    set j: nat | j < |t.entries| && t.entries[j].utilized :: Block(t.entries[j].base, t.entries[j].range)
  }

  // ----------------------------------------------------------- invariant

  ghost predicate EntryOk(c: Config, e: AllocEntry) {
    && e.range.length > 0
    && e.range.start + e.range.length <= Scanned(c.capacity)
    && Candidate(c.aligned, e.range.start)
    && c.NoWrap(e.range.start)
    && e.base == c.Address(e.range.start)
  }

  /** A slot holds a block, live or stale, or has never been filled. */
  ghost predicate EntriesOk(c: Config, es: seq<AllocEntry>) {
    forall j: nat :: j < |es| ==> EntryOk(c, es[j]) || es[j] == UNUSED
  }

  ghost predicate Disjoint(es: seq<AllocEntry>) {
    forall i: nat, j: nat :: i < j < |es| && es[i].utilized && es[j].utilized ==> Apart(es[i].range, es[j].range)
  }

  ghost predicate OwnedBy(es: seq<AllocEntry>, j: nat, i: nat) {
    j < |es| && es[j].utilized && Inside(es[j].range.start, es[j].range.length, i)
  }

  /** The set bits are exactly the units of the utilized slots. */
  ghost predicate Agrees(t: Table) {
    forall i: nat :: i in t.bits <==> exists j: nat :: OwnedBy(t.entries, j, i)
  }

  /** No slot below a utilized one, stale ones included, holds the same base pointer. */
  ghost predicate Unshadowed(es: seq<AllocEntry>) {
    forall i: nat, j: nat :: i < j < |es| && es[j].utilized ==> es[i].base != es[j].base
  }

  ghost predicate Valid(c: Config, t: Table) {
    && |t.entries| == MAX_ALLOCATIONS
    && EntriesOk(c, t.entries)
    && Disjoint(t.entries)
    && Agrees(t)
    && Unshadowed(t.entries)
  }

  // ---------------------------------------------------------- operations

  ghost predicate IsFirstFree(es: seq<AllocEntry>, k: nat) {
    k < |es| && !es[k].utilized && forall i: nat :: i < k ==> es[i].utilized
  }

  ghost predicate IsFirstMatch(es: seq<AllocEntry>, ptr: nat, k: nat) {
    k < |es| && es[k].base == ptr && forall i: nat :: i < k ==> es[i].base != ptr
  }

  ghost predicate IsLive(t: Table, ptr: nat) {
    exists j: nat :: j < |t.entries| && t.entries[j].utilized && t.entries[j].base == ptr
  }

  ghost function Grant(c: Config, t: Table, start: nat, count: nat, k: nat): Table
    requires k < |t.entries|
  {
    Table(t.entries[k := AllocEntry(c.Address(start), BitRange(start, count), true)], t.bits + Span(start, count))
  }

  ghost function Release(t: Table, k: nat): Table
    requires k < |t.entries|
  {
    Table(t.entries[k := t.entries[k].(utilized := false)],
          t.bits - Span(t.entries[k].range.start, t.entries[k].range.length))
  }

  /** One successful allocation: first fit in the bitmap, lowest slot in the table. */
  ghost predicate AllocStep(c: Config, t: Table, count: nat, start: nat, k: nat, t': Table) {
    && count > 0
    && IsFirstFit(t.bits, Scanned(c.capacity), count, c.aligned, start)
    && IsFirstFree(t.entries, k)
    && t' == Grant(c, t, start, count, k)
  }

  ghost predicate FreeStep(t: Table, ptr: nat, k: nat, t': Table) {
    && IsFirstMatch(t.entries, ptr, k)
    && t' == Release(t, k)
  }

  // ------------------------------------------------------- what they keep

  lemma NoWrapInjective(c: Config, a: nat, b: nat)
    requires c.NoWrap(a) && c.NoWrap(b) && a < b
    ensures c.Address(a) < c.Address(b)
  {
    TimesLess(a, b, c.unit);
    var x, y := c.bottom + a * c.unit, c.bottom + b * c.unit;
    assert x < y < ADDRESS_SPACE;
    assert x % ADDRESS_SPACE == x && y % ADDRESS_SPACE == y;
  }

  lemma TimesLess(a: nat, b: nat, u: nat)
    requires a < b && u > 0
    ensures a * u < b * u
  {
    assert b * u == a * u + (b - a) * u;
  }

  /** A block that fits in clear bits meets no utilized slot. */
  lemma FitIsApart(c: Config, t: Table, start: nat, count: nat, j: nat)
    requires Valid(c, t) && j < |t.entries| && t.entries[j].utilized
    requires count > 0 && Clear(t.bits, start, count)
    ensures Apart(t.entries[j].range, BitRange(start, count))
  {
    var r := t.entries[j].range;
    if !Apart(r, BitRange(start, count)) {
      var i := if r.start < start then start else r.start;
      assert OwnedBy(t.entries, j, i);
      assert Inside(start, count, i);
    }
  }

  lemma GrantAgrees(c: Config, t: Table, start: nat, count: nat, k: nat)
    requires Valid(c, t) && k < |t.entries| && !t.entries[k].utilized
    ensures Agrees(Grant(c, t, start, count, k))
  {
    var t' := Grant(c, t, start, count, k);
    forall i: nat
      ensures i in t'.bits <==> exists j: nat :: OwnedBy(t'.entries, j, i)
    {
      if i in t.bits {
        var j: nat :| OwnedBy(t.entries, j, i);
        assert OwnedBy(t'.entries, j, i);
      } else if Inside(start, count, i) {
        assert OwnedBy(t'.entries, k, i);
      } else {
        forall j: nat ensures !OwnedBy(t'.entries, j, i) {
          assert !OwnedBy(t.entries, j, i);
        }
      }
    }
  }

  /** Allocation keeps the table and the bitmap in agreement, and adds one live block. */
  lemma AllocKeeps(c: Config, t: Table, count: nat, start: nat, k: nat, t': Table)
    requires Valid(c, t) && c.NoWrap(start)
    requires AllocStep(c, t, count, start, k, t')
    ensures Valid(c, t')
    ensures Live(t') == Live(t) + {Block(c.Address(start), BitRange(start, count))}
    ensures forall b :: b in Live(t) ==> Apart(b.range, BitRange(start, count)) && b.base != c.Address(start)
  {
    var es, es' := t.entries, t'.entries;
    forall j: nat | j < |es| && es[j].utilized
      ensures Apart(es[j].range, BitRange(start, count)) && es[j].base != c.Address(start)
    {
      FitIsApart(c, t, start, count, j);
      if es[j].range.start < start {
        NoWrapInjective(c, es[j].range.start, start);
      } else {
        NoWrapInjective(c, start, es[j].range.start);
      }
    }
    GrantAgrees(c, t, start, count, k);
    LiveAfterGrant(c, t, start, count, k);
  }

  lemma LiveAfterGrant(c: Config, t: Table, start: nat, count: nat, k: nat)
    requires k < |t.entries| && !t.entries[k].utilized
    ensures Live(Grant(c, t, start, count, k)) == Live(t) + {Block(c.Address(start), BitRange(start, count))}
  {
    var es, es' := t.entries, Grant(c, t, start, count, k).entries;
    var added := Block(c.Address(start), BitRange(start, count));
    forall b | b in Live(t) + {added}
      ensures b in Live(Grant(c, t, start, count, k))
    {
      if b == added {
        assert es'[k].utilized;
      } else {
        var j: nat :| j < |es| && es[j].utilized && b == Block(es[j].base, es[j].range);
        assert es'[j] == es[j];
      }
    }
  }

  /** The search that ignores `utilized` still finds the live slot. */
  lemma SearchFindsLive(c: Config, t: Table, ptr: nat, k: nat)
    requires Valid(c, t) && IsLive(t, ptr) && IsFirstMatch(t.entries, ptr, k)
    ensures t.entries[k].utilized
    ensures forall j: nat :: j < |t.entries| && t.entries[j].utilized && t.entries[j].base == ptr ==> j == k
  {
  }

  /** No unit has two owners. */
  lemma OneOwner(es: seq<AllocEntry>, j: nat, k: nat, i: nat)
    requires Disjoint(es) && OwnedBy(es, j, i) && OwnedBy(es, k, i)
    ensures j == k
  {
  }

  lemma ReleaseAgrees(c: Config, t: Table, k: nat)
    requires Valid(c, t) && k < |t.entries| && t.entries[k].utilized
    ensures Agrees(Release(t, k))
  {
    var t' := Release(t, k);
    forall i: nat
      ensures i in t'.bits <==> exists j: nat :: OwnedBy(t'.entries, j, i)
    {
      forall j: nat
        ensures OwnedBy(t'.entries, j, i) <==> OwnedBy(t.entries, j, i) && !OwnedBy(t.entries, k, i)
      {
        if OwnedBy(t.entries, j, i) && OwnedBy(t.entries, k, i) {
          OneOwner(t.entries, j, k, i);
        }
      }
    }
  }

  /** Freeing a live pointer removes exactly its block. */
  lemma FreeKeeps(c: Config, t: Table, ptr: nat, k: nat, t': Table)
    requires Valid(c, t) && IsLive(t, ptr) && FreeStep(t, ptr, k, t')
    ensures Valid(c, t')
    ensures t.entries[k].utilized
    ensures Block(ptr, t.entries[k].range) in Live(t)
    ensures Live(t') == Live(t) - {Block(ptr, t.entries[k].range)}
    ensures !IsLive(t', ptr)
  {
    SearchFindsLive(c, t, ptr, k);
    ReleaseAgrees(c, t, k);
    var es, es' := t.entries, t'.entries;
    var gone := Block(ptr, es[k].range);
    forall b | b in Live(t) - {gone}
      ensures b in Live(t')
    {
      var j: nat :| j < |es| && es[j].utilized && b == Block(es[j].base, es[j].range);
      assert es'[j] == es[j];
    }
    forall b | b in Live(t')
      ensures b in Live(t) - {gone}
    {
      var j: nat :| j < |es'| && es'[j].utilized && b == Block(es'[j].base, es'[j].range);
      assert es'[j] == es[j] && j != k;
    }
  }

  /** A free by any pointer the table knows: it keeps the agreement exactly when the slot
      found is utilized, or is stale and none of its units has been given out again. */
  lemma FreeAgreesIff(c: Config, t: Table, ptr: nat, k: nat, t': Table)
    requires Valid(c, t) && FreeStep(t, ptr, k, t')
    ensures Agrees(t') <==> t.entries[k].utilized || Clear(t.bits, t.entries[k].range.start, t.entries[k].range.length)
  {
    var r := t.entries[k].range;
    if t.entries[k].utilized {
      ReleaseAgrees(c, t, k);
    } else {
      assert t'.entries == t.entries;
      if Clear(t.bits, r.start, r.length) {
        assert t'.bits == t.bits by {
          forall i: nat | i in t.bits ensures i in t'.bits {
            assert !Inside(r.start, r.length, i);
          }
        }
      } else {
        var i: nat :| Inside(r.start, r.length, i) && i in t.bits;
        assert i !in t'.bits;
        var j: nat :| OwnedBy(t.entries, j, i);
        assert OwnedBy(t'.entries, j, i);
      }
    }
  }

  // ---------------------------------------------------------------- runs

  datatype Op = Alloc(count: nat) | Free(ptr: nat)

  /** A step that returns: the original halts when there is no fit or no free slot.
      Callers free only pointers they hold. */
  ghost predicate Step(c: Config, t: Table, op: Op, t': Table) {
    match op
    case Alloc(count) => exists start: nat, k: nat :: AllocStep(c, t, count, start, k, t')
    case Free(ptr) => IsLive(t, ptr) && exists k: nat :: FreeStep(t, ptr, k, t')
  }

  ghost predicate Run(c: Config, ts: seq<Table>, ops: seq<Op>) {
    |ts| == |ops| + 1 && forall i: nat :: i < |ops| ==> Step(c, ts[i], ops[i], ts[i + 1])
  }

  /** A statically zeroed table. */
  ghost predicate Zeroed(t: Table) {
    && |t.entries| == MAX_ALLOCATIONS
    && (forall j: nat :: j < |t.entries| ==> t.entries[j] == UNUSED)
    && t.bits == {}
  }

  /** A place for `count` units that no live block touches. */
  ghost predicate Room(c: Config, live: set<Block>, count: nat, s: nat) {
    && s + count <= Scanned(c.capacity)
    && Candidate(c.aligned, s)
    && forall o :: o in live ==> Apart(o.range, BitRange(s, count))
  }

  ghost predicate IsFirstRoom(c: Config, live: set<Block>, count: nat, s: nat) {
    Room(c, live, count, s) && forall r: nat :: r < s ==> !Room(c, live, count, r)
  }

  /** The abstract allocator: a set of live blocks.  Allocation adds one at the first
      place with room, and a free removes the block its pointer names. */
  ghost predicate AbstractStep(c: Config, live: set<Block>, op: Op, live': set<Block>) {
    match op
    case Alloc(count) =>
      exists s: nat ::
        && IsFirstRoom(c, live, count, s)
        && live' == live + {Block(c.Address(s), BitRange(s, count))}
        && forall o :: o in live ==> o.base != c.Address(s)
    case Free(ptr) =>
      exists b: Block :: b in live && b.base == ptr && live' == live - {b}
  }

  /** Clear bits are room among the live blocks, and the other way round. */
  lemma RoomIsFit(c: Config, t: Table, count: nat, s: nat)
    requires Valid(c, t) && count > 0
    ensures Room(c, Live(t), count, s) <==> Fits(t.bits, Scanned(c.capacity), count, c.aligned, s)
  {
    if Clear(t.bits, s, count) {
      forall o | o in Live(t)
        ensures Apart(o.range, BitRange(s, count))
      {
        var j: nat :| j < |t.entries| && t.entries[j].utilized && o == Block(t.entries[j].base, t.entries[j].range);
        FitIsApart(c, t, s, count, j);
      }
    } else {
      var i: nat :| Inside(s, count, i) && i in t.bits;
      var j: nat :| OwnedBy(t.entries, j, i);
      assert Block(t.entries[j].base, t.entries[j].range) in Live(t);
    }
  }

  ghost predicate NoRoom(c: Config, live: set<Block>, count: nat) {
    forall s: nat :: !Room(c, live, count, s)
  }

  /** The first place with room. */
  ghost function FirstRoom(c: Config, live: set<Block>, count: nat): (s: nat)
    requires !NoRoom(c, live, count)
    ensures IsFirstRoom(c, live, count, s)
  {
    FirstRoomFrom(c, live, count, 0)
  }

  ghost function FirstRoomFrom(c: Config, live: set<Block>, count: nat, s: nat): (r: nat)
    requires !NoRoom(c, live, count) && forall t: nat :: t < s ==> !Room(c, live, count, t)
    ensures IsFirstRoom(c, live, count, r)
    decreases Scanned(c.capacity) - s
  {
    if Room(c, live, count, s) then s else FirstRoomFrom(c, live, count, s + 1)
  }

  /** An allocation that halts: nothing is asked for, no place has room, or every slot of
      the table is taken. */
  ghost predicate Refuses(c: Config, live: set<Block>, count: nat) {
    count == 0 || NoRoom(c, live, count) || |live| >= MAX_ALLOCATIONS
  }

  /** The live blocks of the first `n` slots. */
  ghost function LiveBelow(es: seq<AllocEntry>, n: nat): set<Block>
    requires n <= |es|
  {
    if n == 0 then {}
    else LiveBelow(es, n - 1) + (if es[n - 1].utilized then {Block(es[n - 1].base, es[n - 1].range)} else {})
  }

  lemma {:induction false} LiveBelowHas(es: seq<AllocEntry>, n: nat, b: Block)
    requires n <= |es|
    ensures b in LiveBelow(es, n) <==> exists j: nat :: j < n && es[j].utilized && b == Block(es[j].base, es[j].range)
  {
    if n > 0 {
      LiveBelowHas(es, n - 1, b);
    }
  }

  /** No two slots hold the same block, so a set of `n` live blocks takes `n` slots. */
  lemma {:induction false} LiveBelowSize(es: seq<AllocEntry>, n: nat)
    requires n <= |es| && Unshadowed(es)
    ensures |LiveBelow(es, n)| <= n
    ensures |LiveBelow(es, n)| == n <==> forall j: nat :: j < n ==> es[j].utilized
  {
    if n > 0 {
      LiveBelowSize(es, n - 1);
      LiveBelowHas(es, n - 1, Block(es[n - 1].base, es[n - 1].range));
    }
  }

  /** The table is full exactly when there are as many live blocks as slots. */
  lemma LiveSize(c: Config, t: Table)
    requires Valid(c, t)
    ensures |Live(t)| <= MAX_ALLOCATIONS
    ensures |Live(t)| >= MAX_ALLOCATIONS <==> forall j: nat :: j < MAX_ALLOCATIONS ==> t.entries[j].utilized
  {
    var all := LiveBelow(t.entries, MAX_ALLOCATIONS);
    LiveBelowSize(t.entries, MAX_ALLOCATIONS);
    forall b
      ensures b in Live(t) <==> b in all
    {
      LiveBelowHas(t.entries, MAX_ALLOCATIONS, b);
    }
    assert Live(t) == all;
  }

  lemma NoRoomIsNoFit(c: Config, t: Table, count: nat)
    requires Valid(c, t) && count > 0
    ensures NoRoom(c, Live(t), count) <==> NoFit(t.bits, Scanned(c.capacity), count, c.aligned)
  {
    forall s: nat
      ensures Room(c, Live(t), count, s) <==> Fits(t.bits, Scanned(c.capacity), count, c.aligned, s)
    {
      RoomIsFit(c, t, count, s);
    }
  }

  lemma StepKeeps(c: Config, t: Table, op: Op, t': Table)
    requires Valid(c, t) && Step(c, t, op, t')
    requires forall s: nat :: s < Scanned(c.capacity) ==> c.NoWrap(s)
    ensures Valid(c, t')
    ensures AbstractStep(c, Live(t), op, Live(t'))
  {
    match op
    case Alloc(count) =>
      var start: nat, k: nat :| AllocStep(c, t, count, start, k, t');
      AllocKeeps(c, t, count, start, k, t');
      forall r: nat ensures Room(c, Live(t), count, r) <==> Fits(t.bits, Scanned(c.capacity), count, c.aligned, r) {
        RoomIsFit(c, t, count, r);
      }
      assert IsFirstRoom(c, Live(t), count, start);
    case Free(ptr) =>
      var k: nat :| FreeStep(t, ptr, k, t');
      FreeKeeps(c, t, ptr, k, t');
      var b := Block(ptr, t.entries[k].range);
      assert b in Live(t) && b.base == ptr && Live(t') == Live(t) - {b};
  }

  lemma ZeroedValid(c: Config, t: Table)
    requires Zeroed(t)
    ensures Valid(c, t)
  {
    forall i: nat, j: nat
      ensures !OwnedBy(t.entries, j, i)
    {
    }
  }

  /** Every state of every run is valid, and every step refines the set of live blocks. */
  lemma {:induction false} RunRefines(c: Config, ts: seq<Table>, ops: seq<Op>, n: nat)
    requires Run(c, ts, ops) && Zeroed(ts[0]) && n < |ts|
    requires forall s: nat :: s < Scanned(c.capacity) ==> c.NoWrap(s)
    ensures Valid(c, ts[n])
    ensures forall i: nat :: i < n ==> AbstractStep(c, Live(ts[i]), ops[i], Live(ts[i + 1]))
  {
    hide Valid, Step, AbstractStep, Zeroed, Live;
    if n == 0 {
      ZeroedValid(c, ts[0]);
    } else {
      RunRefines(c, ts, ops, n - 1);
      StepKeeps(c, ts[n - 1], ops[n - 1], ts[n]);
    }
  }

  /** In every state of every run, whichever slot the search for a live pointer stops at
      is the utilized slot that holds it. */
  lemma RunSearchFindsLive(c: Config, ts: seq<Table>, ops: seq<Op>, n: nat, ptr: nat, k: nat, j: nat)
    requires Run(c, ts, ops) && Zeroed(ts[0]) && n < |ts|
    requires forall s: nat :: s < Scanned(c.capacity) ==> c.NoWrap(s)
    requires IsFirstMatch(ts[n].entries, ptr, k)
    requires j < |ts[n].entries| && ts[n].entries[j].utilized && ts[n].entries[j].base == ptr
    ensures j == k
  {
    RunRefines(c, ts, ops, n);
    SearchFindsLive(c, ts[n], ptr, k);
  }

  // -------------------------------------------------- freeing a stale pointer

  /** A table with given first two slots, all others unused. */
  ghost function TwoSlots(a: AllocEntry, b: AllocEntry, bits: set<nat>): Table {
    Table([a, b] + seq(MAX_ALLOCATIONS - 2, _ => UNUSED), bits)
  }

  lemma FitsAt(bits: set<nat>, limit: nat, count: nat, s: nat)
    requires 0 < count && s % 4 == 0 && s + count <= limit && bits == Span(0, s)
    ensures IsFirstFit(bits, limit, count, true, s)
  {
    forall t: nat | t < s
      ensures !Fits(bits, limit, count, true, t)
    {
      assert Inside(t, count, t) && Inside(0, s, t);
    }
  }

  /** Two blocks of four bytes are granted and freed, and one of eight is granted over both:
      the slot of the second block stays behind, stale. */
  lemma StaleRun(c: Config) returns (ts: seq<Table>, ops: seq<Op>)
    requires c.unit == 1 && c.aligned && 8 <= Scanned(c.capacity) && c.bottom + 8 < ADDRESS_SPACE
    ensures Run(c, ts, ops) && Zeroed(ts[0])
    ensures ts[|ops|] == TwoSlots(AllocEntry(c.bottom, BitRange(0, 8), true),
                                  AllocEntry(c.bottom + 4, BitRange(4, 4), false), Span(0, 8))
  {
    var n := Scanned(c.capacity);
    var a, b := AllocEntry(c.bottom, BitRange(0, 4), true), AllocEntry(c.bottom + 4, BitRange(4, 4), true);
    var a', b' := a.(utilized := false), b.(utilized := false);
    var wide := AllocEntry(c.bottom, BitRange(0, 8), true);
    var t0, t1, t2 := TwoSlots(UNUSED, UNUSED, {}), TwoSlots(a, UNUSED, Span(0, 4)), TwoSlots(a, b, Span(0, 8));
    var t3, t4, t5 := TwoSlots(a, b', Span(0, 4)), TwoSlots(a', b', {}), TwoSlots(wide, b', Span(0, 8));
    FitsAt({}, n, 4, 0);
    FitsAt(Span(0, 4), n, 4, 4);
    FitsAt({}, n, 8, 0);
    assert AllocStep(c, t0, 4, 0, 0, t1);
    assert AllocStep(c, t1, 4, 4, 1, t2);
    assert t2.entries[1].utilized && FreeStep(t2, c.bottom + 4, 1, t3);
    assert t3.entries[0].utilized && FreeStep(t3, c.bottom, 0, t4);
    assert AllocStep(c, t4, 8, 0, 0, t5);
    ts, ops := [t0, t1, t2, t3, t4, t5], [Alloc(4), Alloc(4), Free(c.bottom + 4), Free(c.bottom), Alloc(8)];
    hide AllocStep, FreeStep, TwoSlots;
  }

  /** Freeing is not safe for pointers already freed: the stale slot is found, and clearing
      its units takes them from the live block. */
  lemma StaleFreeBreaks(c: Config) returns (ts: seq<Table>, ops: seq<Op>, t': Table)
    requires c.unit == 1 && c.aligned && 8 <= Scanned(c.capacity) && c.bottom + 8 < ADDRESS_SPACE
    ensures Run(c, ts, ops) && Zeroed(ts[0])
    ensures FreeStep(ts[|ops|], c.bottom + 4, 1, t') && !Agrees(t')
  {
    ts, ops := StaleRun(c);
    t' := Release(ts[|ops|], 1);
    assert OwnedBy(t'.entries, 0, 4) && 4 !in t'.bits;
  }
}
