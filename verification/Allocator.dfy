/** The imperative allocators of src/alloc.c: kmalloc, kfree, allocate_page and free_page.

    kmalloc and allocate_page are one piece of code up to the bitmap capacity, the size
    of a unit and the alignment flag; so are kfree and free_page.  A PANIC or a failed
    ASSERT halts the machine and is the result `Halted`. */
module Allocator {
  import opened Bitmap
  import opened SlotTable
  import opened Pages

  datatype Outcome = Returned(ptr: nat) | Halted

  class SlotAllocator {
    const cfg: Config
    const entries: array<AllocEntry>
    const bitmap: array<bv32>
    var active: bool

    constructor (cfg: Config, words: nat)
      ensures this.cfg == cfg && bitmap.Length == words && active
      ensures fresh(entries) && fresh(bitmap) && (cfg.capacity / 4 <= words ==> Sized())
      ensures Zeroed(Contents())
    {
      this.cfg := cfg;
      entries := new AllocEntry[MAX_ALLOCATIONS](_ => AllocEntry(0, BitRange(0, 0), false));
      bitmap := new bv32[words](_ => 0);
      active := true;
      new;
      ZeroWords(bitmap[..]);
    }

    ghost function Contents(): Table
      reads this, entries, bitmap
    {
      Table(entries[..], BitsOf(bitmap[..]))
    }

    /** The arrays are as large as the scan and the table assume. */
    ghost predicate Sized() {
      && entries.Length == MAX_ALLOCATIONS
      && cfg.capacity / 4 <= bitmap.Length
      && entries as object != bitmap as object
    }

    /** kmalloc / allocate_page. */
    method Allocate(count: nat) returns (r: Outcome)
      requires Sized()
      requires forall s: nat :: IsFirstFit(Contents().bits, Scanned(cfg.capacity), count, cfg.aligned, s) ==>
                 FitsCounter(s, count)
      modifies entries, bitmap
      ensures r.Halted? <==>
              || !active || count == 0
              || old(NoFit(Contents().bits, Scanned(cfg.capacity), count, cfg.aligned))
              || forall j: nat :: j < MAX_ALLOCATIONS ==> old(entries[j].utilized)
      ensures r.Returned? ==>
              exists start: nat, k: nat ::
                AllocStep(cfg, old(Contents()), count, start, k, Contents()) && r.ptr == cfg.Address(start)
    {
      if !active || count == 0 {
        return Halted;
      }
      var allocation := AllocBitRange(bitmap, cfg.capacity, count, cfg.aligned);
      if allocation.length == 0 {
        return Halted;
      }
      var newEntry := AllocEntry(cfg.Address(allocation.start), allocation, true);
      var entry := 0;
      while entry < MAX_ALLOCATIONS
        invariant entry <= MAX_ALLOCATIONS
        invariant forall i: nat :: i < entry ==> entries[i].utilized
        invariant entries[..] == old(entries[..])
        invariant BitsOf(bitmap[..]) == old(BitsOf(bitmap[..])) + Span(allocation.start, count)
      {
        if !entries[entry].utilized {
          entries[entry] := newEntry;
          assert AllocStep(cfg, old(Contents()), count, allocation.start, entry, Contents());
          return Returned(newEntry.base);
        }
        entry := entry + 1;
      }
      return Halted;
    }

    /** kfree / free_page.  The search compares base pointers only. */
    method Free(ptr: nat) returns (r: Outcome)
      requires Sized()
      requires forall k: nat :: k < MAX_ALLOCATIONS && entries[k].base == ptr ==> FreeableEntry(entries[k].range)
      modifies entries, bitmap
      ensures r.Halted? <==> !active || forall k: nat :: k < MAX_ALLOCATIONS ==> old(entries[k].base) != ptr
      ensures r.Returned? ==> exists k: nat :: FreeStep(old(Contents()), ptr, k, Contents())
    {
      if !active {
        return Halted;
      }
      var entry := 0;
      while entry < MAX_ALLOCATIONS
        invariant entry <= MAX_ALLOCATIONS
        invariant forall i: nat :: i < entry ==> entries[i].base != ptr
        invariant Contents() == old(Contents())
      {
        if entries[entry].base == ptr {
          entries[entry] := entries[entry].(utilized := false);
          DeallocBitRange(bitmap, entries[entry].range);
          assert FreeStep(old(Contents()), ptr, entry, Contents());
          return Returned(ptr);
        }
        entry := entry + 1;
      }
      return Halted;
    }

    ghost predicate FreeableEntry(range: BitRange) {
      && range.start + range.length <= 32 * bitmap.Length
      && (range.length > 0 || range.start == 0 || range.start % 32 != 0)
      && FitsCounter(range.start, range.length)
    }
  }

  /** The page allocator: `page_allocator` of the original. */
  class PageAllocator {
    const slots: SlotAllocator

    ghost predicate Ok()
      reads slots, slots.entries, slots.bitmap
    {
      slots.cfg == PAGES && slots.Sized() && slots.active && PagesValid(slots.Contents())
    }

    /** The reservation initialize_allocator makes: the kernel owns the first 1024 pages. */
    constructor ()
      ensures Ok() && fresh(slots) && fresh(slots.entries) && fresh(slots.bitmap)
      ensures Reserved(slots.Contents())
    {
      slots := new SlotAllocator(PAGES, PAGE_BITMAP_CAPACITY);
      new;
      FirstFitOfEmpty(Scanned(PAGE_BITMAP_CAPACITY), KERNEL_PAGES);
      var kernelRange := AllocBitRange(slots.bitmap, PAGE_BITMAP_CAPACITY, KERNEL_PAGES, false);
      slots.entries[0] := AllocEntry(0, kernelRange, true);
      ReservedValid(slots.Contents());
    }

    /** allocate_page: halts exactly when the table is full. */
    method AllocatePage() returns (r: Outcome)
      requires Ok()
      modifies slots.entries, slots.bitmap
      ensures r.Halted? <==> forall j: nat :: j < MAX_ALLOCATIONS ==> old(slots.entries[j].utilized)
      ensures r.Returned? ==>
              && Ok()
              && r.ptr % PAGE_SIZE == 0 && 0x40_0000 <= r.ptr < 0x40_0000 + 255 * PAGE_SIZE
              && r.ptr == PAGE_SIZE * old(FirstClear(slots.Contents().bits))
              && !old(IsLive(slots.Contents(), r.ptr))
              && Live(slots.Contents()) == old(Live(slots.Contents())) + {Block(r.ptr, BitRange(r.ptr / PAGE_SIZE, 1))}
    {
      hide PagesValid, IsFirstFit, NoFit, AllocStep, Live, IsLive, FitsCounter;
      ghost var t := slots.Contents();
      forall s: nat | IsFirstFit(t.bits, Scanned(PAGE_BITMAP_CAPACITY), 1, false, s)
        ensures FitsCounter(s, 1)
      {
        PageBound(t, s);
      }
      AlwaysFits(t);
      r := slots.Allocate(1);
      if r.Returned? {
        ghost var start: nat, k: nat :|
          AllocStep(PAGES, t, 1, start, k, slots.Contents()) && r.ptr == PAGES.Address(start);
        PageAllocKeeps(t, start, k, slots.Contents());
      }
    }

    /** free_page of a page that is out and is not the kernel's. */
    method FreePage(ptr: nat) returns (r: Outcome)
      requires Ok()
      requires ptr != 0 && IsLive(slots.Contents(), ptr)
      modifies slots.entries, slots.bitmap
      ensures r.Returned? && Ok()
      ensures Live(slots.Contents()) == old(Live(slots.Contents())) - {Block(ptr, BitRange(ptr / PAGE_SIZE, 1))}
      ensures !IsLive(slots.Contents(), ptr)
    {
      ghost var t := slots.Contents();
      r := slots.Free(ptr);
      assert r.Returned?;
      ghost var k: nat :| FreeStep(t, ptr, k, slots.Contents());
      PageFreeKeeps(t, ptr, k, slots.Contents());
    }
  }
}
