/** The physical page allocator (src/alloc.c, allocate_page and free_page).

    One unit is a 4096-byte page, and the scan covers twice the 32-bit address space.
    That no page address wraps around, and that the 16-bit word counter of the bitmap
    code is never reached, follows from the size of the table: the kernel's reservation
    keeps slot 0, so at most 255 pages are out at any time. */
module Pages {
  import opened Bitmap
  import opened SlotTable

  const PAGE_SIZE: nat := 4096
  const KERNEL_PAGES: nat := 1024
  const PAGE_BITMAP_CAPACITY: nat := 262144

  const PAGES := Config(0, PAGE_SIZE, false, PAGE_BITMAP_CAPACITY)

  const KERNEL_ENTRY := AllocEntry(0, BitRange(0, KERNEL_PAGES), true)

  /** One page of the 255 above the kernel's reservation. */
  predicate PageRange(r: BitRange) {
    r.length == 1 && KERNEL_PAGES <= r.start < KERNEL_PAGES + MAX_ALLOCATIONS - 1
  }

  ghost predicate PagesValid(t: Table) {
    && Valid(PAGES, t)
    && t.entries[0] == KERNEL_ENTRY
    && forall j: nat :: 0 < j < |t.entries| ==> t.entries[j] == UNUSED || PageRange(t.entries[j].range)
  }

  /** The first units of the utilized slots 1 to n - 1. */
  ghost function Starts(es: seq<AllocEntry>, n: nat): set<nat>
    requires n <= |es|
  {
    if n <= 1 then {}
    else Starts(es, n - 1) + (if es[n - 1].utilized then {es[n - 1].range.start} else {})
  }

  lemma {:induction false} StartsHas(es: seq<AllocEntry>, n: nat, j: nat)
    requires n <= |es| && 0 < j < n && es[j].utilized
    ensures es[j].range.start in Starts(es, n)
  {
    if j < n - 1 {
      StartsHas(es, n - 1, j);
    }
  }

  lemma {:induction false} StartsSize(es: seq<AllocEntry>, n: nat, free: nat)
    requires 0 < n <= |es| && free < |es| && (free == 0 || !es[free].utilized)
    ensures |Starts(es, n)| <= if 0 < free < n then n - 2 else n - 1
  {
    if n > 1 {
      StartsSize(es, n - 1, free);
    }
  }

  /** A prefix of set bits is no longer than the kernel's pages and one page a slot. */
  lemma PrefixBound(t: Table, n: nat)
    requires PagesValid(t)
    requires forall i: nat :: i < n ==> i in t.bits
    ensures n <= KERNEL_PAGES + MAX_ALLOCATIONS - 1
    ensures forall k: nat :: IsFirstFree(t.entries, k) ==> n < KERNEL_PAGES + MAX_ALLOCATIONS - 1
  {
    var es := t.entries;
    var out := Starts(es, |es|);
    forall i: nat | i in Span(0, n)
      ensures i in Span(0, KERNEL_PAGES) + out
    {
      assert Inside(0, n, i) && i in t.bits;
      var j: nat :| OwnedBy(t.entries, j, i);
      if j > 0 {
        StartsHas(es, |es|, j);
      }
    }
    SpanSize(n);
    SpanSize(KERNEL_PAGES);
    SubsetSize(Span(0, n), Span(0, KERNEL_PAGES) + out);
    StartsSize(es, |es|, 0);
    forall k: nat | IsFirstFree(es, k)
      ensures n < KERNEL_PAGES + MAX_ALLOCATIONS - 1
    {
      StartsSize(es, |es|, k);
    }
  }

  lemma UnitFits(bits: set<nat>, limit: nat, i: nat)
    requires i < limit
    ensures Fits(bits, limit, 1, false, i) <==> i !in bits
  {
    assert Inside(i, 1, i);
  }

  /** The first free page lies at or just above the end of the kernel's reservation. */
  lemma PageBound(t: Table, start: nat)
    requires PagesValid(t)
    requires IsFirstFit(t.bits, Scanned(PAGE_BITMAP_CAPACITY), 1, false, start)
    ensures KERNEL_PAGES <= start <= KERNEL_PAGES + MAX_ALLOCATIONS - 1
    ensures (exists k: nat :: IsFirstFree(t.entries, k)) ==> start < KERNEL_PAGES + MAX_ALLOCATIONS - 1
    ensures FitsCounter(start, 1)
  {
    forall i: nat | i < start
      ensures i in t.bits
    {
      UnitFits(t.bits, Scanned(PAGE_BITMAP_CAPACITY), i);
    }
    PrefixBound(t, start);
    assert Inside(start, 1, start);
    forall i: nat | i < KERNEL_PAGES
      ensures i in t.bits
    {
      assert OwnedBy(t.entries, 0, i);
    }
  }

  /** The bitmap never runs out of pages before the table runs out of slots. */
  lemma AlwaysFits(t: Table)
    requires PagesValid(t)
    ensures !NoFit(t.bits, Scanned(PAGE_BITMAP_CAPACITY), 1, false)
  {
    var n := KERNEL_PAGES + MAX_ALLOCATIONS;
    if forall i: nat :: i < n ==> i in t.bits {
      PrefixBound(t, n);
    } else {
      var i: nat :| i < n && i !in t.bits;
      assert Clear(t.bits, i, 1);
      assert Fits(t.bits, Scanned(PAGE_BITMAP_CAPACITY), 1, false, i);
    }
  }

  lemma PageAllocKeeps(t: Table, start: nat, k: nat, t': Table)
    requires PagesValid(t) && AllocStep(PAGES, t, 1, start, k, t')
    ensures PagesValid(t')
    ensures KERNEL_PAGES <= start < KERNEL_PAGES + MAX_ALLOCATIONS - 1 && start == FirstClear(t.bits)
    ensures PAGES.Address(start) == start * PAGE_SIZE
    ensures Live(t') == Live(t) + {Block(start * PAGE_SIZE, BitRange(start, 1))}
    ensures !IsLive(t, start * PAGE_SIZE)
  {
    hide IsFirstFit, IsLive;
    PageBound(t, start);
    FirstFitIsFirstClear(t.bits, Scanned(PAGE_BITMAP_CAPACITY), start);
    AllocKeeps(PAGES, t, 1, start, k, t');
    NotLive(t, start * PAGE_SIZE);
  }

  lemma NotLive(t: Table, ptr: nat)
    requires forall b :: b in Live(t) ==> b.base != ptr
    ensures !IsLive(t, ptr)
  {
    forall j: nat | j < |t.entries| && t.entries[j].utilized
      ensures t.entries[j].base != ptr
    {
      assert Block(t.entries[j].base, t.entries[j].range) in Live(t);
    }
  }

  lemma PageFreeKeeps(t: Table, ptr: nat, k: nat, t': Table)
    requires PagesValid(t) && ptr != 0 && IsLive(t, ptr) && FreeStep(t, ptr, k, t')
    ensures PagesValid(t')
    ensures Live(t') == Live(t) - {Block(ptr, BitRange(ptr / PAGE_SIZE, 1))}
    ensures !IsLive(t', ptr)
  {
    FreeKeeps(PAGES, t, ptr, k, t');
    assert k != 0;
    assert EntryOk(PAGES, t.entries[k]);
  }

  // ---------------------------------------------------------------- runs

  /** allocate_page, or free_page of a page other than the kernel's reservation. */
  ghost predicate PageStep(t: Table, op: Op, t': Table) {
    (op.Alloc? ==> op.count == 1) && (op.Free? ==> op.ptr != 0) && Step(PAGES, t, op, t')
  }

  ghost predicate PageRun(ts: seq<Table>, ops: seq<Op>) {
    |ts| == |ops| + 1 && forall i: nat :: i < |ops| ==> PageStep(ts[i], ops[i], ts[i + 1])
  }

  /** The table right after the kernel reserved its pages. */
  ghost predicate Reserved(t: Table) {
    && |t.entries| == MAX_ALLOCATIONS
    && t.entries[0] == KERNEL_ENTRY
    && (forall j: nat :: 0 < j < |t.entries| ==> t.entries[j] == UNUSED)
    && t.bits == Span(0, KERNEL_PAGES)
  }

  lemma ReservedValid(t: Table)
    requires Reserved(t)
    ensures PagesValid(t)
  {
    forall i: nat
      ensures i in t.bits <==> exists j: nat :: OwnedBy(t.entries, j, i)
    {
      assert OwnedBy(t.entries, 0, i) <==> i in t.bits;
    }
  }

  lemma {:induction false} PageRunValid(ts: seq<Table>, ops: seq<Op>, n: nat)
    requires PageRun(ts, ops) && Reserved(ts[0]) && n < |ts|
    ensures PagesValid(ts[n])
  {
    if n == 0 {
      ReservedValid(ts[0]);
    } else {
      PageRunValid(ts, ops, n - 1);
      var t, t' := ts[n - 1], ts[n];
      match ops[n - 1]
      case Alloc(count) =>
        var start: nat, k: nat :| AllocStep(PAGES, t, count, start, k, t');
        PageAllocKeeps(t, start, k, t');
      case Free(ptr) =>
        var k: nat :| FreeStep(t, ptr, k, t');
        PageFreeKeeps(t, ptr, k, t');
    }
  }

  /** Every page handed out in any run is page-aligned, lies in the 255 pages above the
      kernel's 4 MiB, and is not one that is still out. */
  lemma PageRunRange(ts: seq<Table>, ops: seq<Op>, n: nat, start: nat, k: nat)
    requires PageRun(ts, ops) && Reserved(ts[0]) && n < |ops|
    requires ops[n] == Alloc(1) && AllocStep(PAGES, ts[n], 1, start, k, ts[n + 1])
    ensures 0x40_0000 <= PAGES.Address(start) < 0x40_0000 + 255 * PAGE_SIZE
    ensures PAGES.Address(start) % PAGE_SIZE == 0
    ensures !IsLive(ts[n], PAGES.Address(start))
    ensures IsLive(ts[n + 1], PAGES.Address(start))
  {
    PageRunValid(ts, ops, n);
    PageAllocKeeps(ts[n], start, k, ts[n + 1]);
    assert ts[n + 1].entries[k].utilized;
  }
}
