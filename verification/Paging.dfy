/** Two-level paging with a recursive self-map (src/paging.c).

    Physical memory is seen as frames of 1024 words.  The walk is that of 32-bit paging in
    the Intel SDM, volume 3A ("32-Bit Paging"): a directory entry selects a table, a table
    entry selects a frame, bit 0 is the present flag and bit 1 the write flag; write
    protection is on, so a supervisor write needs the write flag at both levels.  The
    kernel reaches its own tables only through virtual addresses, by way of the directory
    slot 1023 that points back at the directory. */
module Paging {
  import opened Common
  import opened Bitmap
  import opened SlotTable
  import opened Pages
  import opened Allocator

  const ENTRIES: nat := 1024
  const SELF: nat := 1023

  /** The word at an index of a frame. */
  type Phys = (nat, nat) -> nat

  // ------------------------------------------------------------ bitwise or

  /** `a | b` of unsigned values. */
  function Or(a: nat, b: nat): nat {
    if a == 0 then b
    else if b == 0 then a
    else 2 * Or(a / 2, b / 2) + (if a % 2 == 1 || b % 2 == 1 then 1 else 0)
  }

  lemma OrHalves(a: nat, b: nat)
    ensures Or(a, b) / 2 == Or(a / 2, b / 2)
    ensures Or(a, b) % 2 == 1 <==> a % 2 == 1 || b % 2 == 1
  {
  }

  lemma {:induction false} OrHalved(a: nat, b: nat, k: nat)
    ensures Halved(Or(a, b), k) == Or(Halved(a, k), Halved(b, k))
  {
    if k > 0 {
      OrHalves(a, b);
      OrHalved(a / 2, b / 2, k - 1);
    }
  }

  /** Twelve halvings drop the offset bits. */
  lemma HalvedFrame(x: nat)
    ensures Halved(x, 12) == x / 4096
  {
    hide Halved;
    HalvedFour(x, 8);
    HalvedFour(x / 16, 4);
    HalvedFour(x / 256, 0);
    HalvedNone(x / 4096);
    assert x / 16 / 16 == x / 256 && x / 256 / 16 == x / 4096;
  }

  lemma HalvedNone(x: nat)
    ensures Halved(x, 0) == x
  {
  }

  lemma OrFrame(a: nat, b: nat)
    ensures Or(a, b) / 4096 == Or(a / 4096, b / 4096)
  {
    OrHalved(a, b, 12);
    HalvedFrame(Or(a, b));
    HalvedFrame(a);
    HalvedFrame(b);
  }

  // -------------------------------------------------------------- the walk

  predicate Present(e: nat) {
    e % 2 == 1
  }

  predicate Writable(e: nat) {
    e / 2 % 2 == 1
  }

  function Dir(va: nat): nat {
    va / 0x40_0000
  }

  function Tab(va: nat): nat {
    va / 4096 % ENTRIES
  }

  /** The physical address the processor computes for `va`, or a fault. */
  function Translate(mem: Phys, root: nat, va: nat): Option<nat> {
    var pde := mem(root, Dir(va));
    var pte := mem(pde / 4096, Tab(va));
    if Present(pde) && Present(pte) then Some(pte / 4096 * 4096 + va % 4096) else None
  }

  predicate MayWrite(mem: Phys, root: nat, va: nat) {
    var pde := mem(root, Dir(va));
    Writable(pde) && Writable(mem(pde / 4096, Tab(va)))
  }

  /** The self-map: slot 1023 of the directory points at the directory, writable. */
  predicate SelfMapped(mem: Phys, root: nat) {
    mem(root, SELF) / 4096 == root && Present(mem(root, SELF)) && Writable(mem(root, SELF))
  }

  /** The address of word `t` in the window onto the table of slot `d`: 0xFFC00000 plus a
      page for every slot.  The window of slot 1023 is the directory, at 0xFFFFF000. */
  function Window(d: nat, t: nat): nat {
    0xFFC0_0000 + 4096 * d + 4 * t
  }

  /** The recursive slot: a window address reaches the table its slot points at. */
  lemma WindowReaches(mem: Phys, root: nat, d: nat, t: nat)
    requires SelfMapped(mem, root) && d < ENTRIES && t < ENTRIES
    ensures Dir(Window(d, t)) == SELF && Tab(Window(d, t)) == d
    ensures Translate(mem, root, Window(d, t)) ==
            if Present(mem(root, d)) then Some(mem(root, d) / 4096 * 4096 + 4 * t) else None
    ensures MayWrite(mem, root, Window(d, t)) <==> Writable(mem(root, d))
  {
    var va := Window(d, t);
    assert va / 0x40_0000 == SELF;
    assert va / 4096 == 0xFFC00 + d;
    assert va / 4096 % ENTRIES == d;
    assert va % 4096 == 4 * t;
  }

  // ----------------------------------------------------------- the tables

  /** The tables in use are distinct frames, none of them the directory. */
  ghost predicate TablesDistinct(mem: Phys, root: nat) {
    && (forall d: nat :: d < SELF && Present(mem(root, d)) ==> mem(root, d) / 4096 != root)
    && forall d: nat, e: nat :: d < e < SELF && Present(mem(root, d)) && Present(mem(root, e)) ==>
         mem(root, d) / 4096 != mem(root, e) / 4096
  }

  /** `frame` is the directory or a table in use. */
  ghost predicate InUse(mem: Phys, root: nat, frame: nat) {
    frame == root || exists d: nat :: d < SELF && Present(mem(root, d)) && mem(root, d) / 4096 == frame
  }

  function Put(mem: Phys, frame: nat, i: nat, v: nat): Phys {
    (f, j) => if f == frame && j == i then v else mem(f, j)
  }

  /** A frame all of whose words are zero; the others are as in `mem`. */
  ghost predicate ClearedFrame(mem: Phys, mem': Phys, frame: nat) {
    forall f: nat, j: nat :: mem'(f, j) == if f == frame && j < ENTRIES then 0 else mem(f, j)
  }

  /** Everything but the page of `va` translates as before, except that when the
      table is new its own window page now shows it. */
  ghost predicate OnlyMaps(mem: Phys, mem': Phys, root: nat, va: nat, phys: nat, newTable: bool) {
    forall w: nat :: w < ADDRESS_SPACE ==>
      Translate(mem', root, w) ==
        if w / 4096 == va / 4096 then Some(phys / 4096 * 4096 + w % 4096)
        else if newTable && w / 4096 == Window(Dir(va), 0) / 4096
        then Some(mem'(root, Dir(va)) / 4096 * 4096 + w % 4096)
        else Translate(mem, root, w)
  }

  /** Whether an address may be written, or that it faults. */
  function Access(mem: Phys, root: nat, va: nat): Option<bool> {
    if Translate(mem, root, va).Some? then Some(MayWrite(mem, root, va)) else None
  }

  /** The same of write permission: the page of `va` may be written if `on`, a new table may
      be written through its window, and nothing else changes. */
  ghost predicate OnlyPermits(mem: Phys, mem': Phys, root: nat, va: nat, on: bool, newTable: bool) {
    forall w: nat :: w < ADDRESS_SPACE ==>
      Access(mem', root, w) ==
        if w / 4096 == va / 4096 then Some(on)
        else if newTable && w / 4096 == Window(Dir(va), 0) / 4096 then Some(true)
        else Access(mem, root, w)
  }

  lemma PageParts(w: nat, va: nat)
    ensures w / 4096 == va / 4096 <==> Dir(w) == Dir(va) && Tab(w) == Tab(va)
  {
    assert w / 4096 == ENTRIES * Dir(w) + Tab(w);
    assert va / 4096 == ENTRIES * Dir(va) + Tab(va);
  }

  lemma WindowPage(d: nat, w: nat)
    requires d < ENTRIES
    ensures w / 4096 == Window(d, 0) / 4096 <==> Dir(w) == SELF && Tab(w) == d
  {
    PageParts(w, Window(d, 0));
    assert Window(d, 0) / 4096 == 0xFFC00 + d;
  }

  /** Writing one table entry changes the translation of one page. */
  lemma EntryMaps(mem: Phys, root: nat, va: nat, phys: nat, pte: nat)
    requires SelfMapped(mem, root) && TablesDistinct(mem, root) && Dir(va) < SELF
    requires Present(mem(root, Dir(va))) && Present(pte) && pte / 4096 == phys / 4096
    ensures var mem' := Put(mem, mem(root, Dir(va)) / 4096, Tab(va), pte);
            && OnlyMaps(mem, mem', root, va, phys, false)
            && OnlyPermits(mem, mem', root, va, Writable(mem(root, Dir(va))) && Writable(pte), false)
            && SelfMapped(mem', root) && TablesDistinct(mem', root)
            && forall d: nat :: mem'(root, d) == mem(root, d)
  {
    var frame := mem(root, Dir(va)) / 4096;
    var mem' := Put(mem, frame, Tab(va), pte);
    assert frame != root;
    forall w: nat | w < ADDRESS_SPACE
      ensures Translate(mem', root, w) ==
              if w / 4096 == va / 4096 then Some(phys / 4096 * 4096 + w % 4096) else Translate(mem, root, w)
      ensures Access(mem', root, w) ==
              if w / 4096 == va / 4096 then Some(Writable(mem(root, Dir(va))) && Writable(pte))
              else Access(mem, root, w)
    {
      PageParts(w, va);
      assert Dir(w) < ENTRIES;
    }
  }

  /** Pointing an empty directory slot at a cleared frame that is no table adds a table with
      no page in it: only the slot's own window changes. */
  lemma FreshTable(mem: Phys, mem': Phys, root: nat, d: nat, pde: nat)
    requires SelfMapped(mem, root) && TablesDistinct(mem, root) && d < SELF
    requires !Present(mem(root, d)) && Present(pde) && !InUse(mem, root, pde / 4096)
    requires ClearedFrame(Put(mem, root, d, pde), mem', pde / 4096)
    ensures SelfMapped(mem', root) && TablesDistinct(mem', root)
    ensures mem'(root, d) == pde && forall t: nat :: t < ENTRIES ==> mem'(pde / 4096, t) == 0
    ensures forall e: nat :: e != d ==> mem'(root, e) == mem(root, e)
    ensures forall w: nat :: w < ADDRESS_SPACE ==>
              Translate(mem', root, w) ==
                if w / 4096 == Window(d, 0) / 4096 then Some(pde / 4096 * 4096 + w % 4096) else Translate(mem, root, w)
    ensures forall w: nat :: w < ADDRESS_SPACE ==>
              Access(mem', root, w) ==
                if w / 4096 == Window(d, 0) / 4096 then Some(Writable(pde)) else Access(mem, root, w)
  {
    var frame := pde / 4096;
    assert frame != root;
    forall e: nat | e < SELF && e != d && Present(mem(root, e))
      ensures mem(root, e) / 4096 != frame
    {
    }
    forall w: nat | w < ADDRESS_SPACE
      ensures Translate(mem', root, w) ==
              if w / 4096 == Window(d, 0) / 4096 then Some(frame * 4096 + w % 4096) else Translate(mem, root, w)
      ensures Access(mem', root, w) ==
              if w / 4096 == Window(d, 0) / 4096 then Some(Writable(pde)) else Access(mem, root, w)
    {
      hide TablesDistinct, InUse;
      WindowPage(d, w);
      assert Dir(w) < ENTRIES && Tab(w) < ENTRIES;
    }
  }

  // ------------------------------------------------------------ the kernel

  /** The entry `x | flags | PAGE_PRESENT`. */
  function MakeEntry(x: nat, flags: nat): nat {
    Or(Or(x, flags), 1)
  }

  /** No flag beyond the twelve of an entry adds a bit to the frame number. */
  predicate FlagsKeep(frame: nat, flags: nat) {
    Or(frame, flags / 4096) == frame
  }

  /** Bit by bit: an entry has the bits of the address, those of the flags, and bit 0. */
  lemma EntryBit(x: nat, flags: nat, k: nat)
    ensures Halved(MakeEntry(x, flags), k) % 2 == 1 <==>
            k == 0 || Halved(x, k) % 2 == 1 || Halved(flags, k) % 2 == 1
  {
    hide Or, Halved;
    OrHalved(Or(x, flags), 1, k);
    OrHalved(x, flags, k);
    OrHalves(Halved(Or(x, flags), k), Halved(1, k));
    OrHalves(Halved(x, k), Halved(flags, k));
    HalvedOne(k);
  }

  lemma {:induction false} HalvedOne(k: nat)
    ensures Halved(1, k) == if k == 0 then 1 else 0
  {
    if k > 1 {
      HalvedZero(k - 1);
    }
  }

  lemma {:induction false} HalvedZero(k: nat)
    ensures Halved(0, k) == 0
  {
    if k > 0 {
      HalvedZero(k - 1);
    }
  }

  lemma EntryFlags(x: nat, flags: nat)
    ensures Present(MakeEntry(x, flags))
    ensures Writable(MakeEntry(x, flags)) <==> x / 2 % 2 == 1 || flags / 2 % 2 == 1
  {
    hide Or;
    OrHalves(Or(x, flags), 1);
    OrHalves(x, flags);
    OrHalves(x / 2, flags / 2);
    OrZero(Or(x / 2, flags / 2));
  }

  /** The entry names the frame it was made for if and only if the flags keep it, and a
      frame that is no lower in any case. */
  lemma EntryFrame(x: nat, flags: nat)
    ensures MakeEntry(x, flags) / 4096 == Or(x / 4096, flags / 4096) >= x / 4096
    ensures MakeEntry(x, flags) / 4096 == x / 4096 <==> FlagsKeep(x / 4096, flags)
    ensures flags < 4096 ==> FlagsKeep(x / 4096, flags)
  {
    hide Or;
    var frame, high := x / 4096, flags / 4096;
    OrFrame(Or(x, flags), 1);
    OrFrame(x, flags);
    OrZero(Or(frame, high));
    OrZero(frame);
    OrAbove(frame, high);
  }

  lemma EntryWritable(x: nat, flags: nat)
    ensures Present(MakeEntry(x, flags))
    ensures Writable(MakeEntry(x, flags)) <==> Writable(x) || Writable(flags)
  {
    hide MakeEntry;
    EntryFlags(x, flags);
  }

  lemma LowFlags(flags: nat)
    ensures Writable(flags % 4096) <==> Writable(flags)
  {
    var high, low := flags / 4096, flags % 4096;
    assert flags == 2 * (2048 * high) + low && 2048 * high == 2 * (1024 * high);
    Doubled(2048 * high, low);
    Doubled(1024 * high, low / 2);
  }

  lemma Doubled(a: nat, b: nat)
    ensures (2 * a + b) / 2 == a + b / 2 && (2 * a + b) % 2 == b % 2
  {
    assert 2 * a + b == 2 * (a + b / 2) + b % 2;
  }

  lemma {:induction false} OrAbove(a: nat, b: nat)
    ensures Or(a, b) >= a
  {
    if a != 0 && b != 0 {
      OrAbove(a / 2, b / 2);
    }
  }

  /** The smallest case: the first page above the kernel's, and a flag of 4096. */
  lemma WideFlagsStray()
    ensures !FlagsKeep(KERNEL_PAGES, 4096)
  {
    OrHalves(KERNEL_PAGES, 1);
    assert KERNEL_PAGES % 2 == 0;
  }

  lemma OrZero(x: nat)
    ensures Or(x, 0) == x
  {
  }

  datatype MapResult = Mapped | PageFault | MapHalted

  /** Every table in use is in the kernel's reservation or is a page that is out. */
  ghost predicate TablesOwned(mem: Phys, root: nat, t: Table) {
    forall f: nat :: InUse(mem, root, f) ==> f < KERNEL_PAGES || IsLive(t, f * PAGE_SIZE)
  }

  lemma LiveGrows(t: Table, t': Table, ptr: nat)
    requires Live(t) <= Live(t') && IsLive(t, ptr)
    ensures IsLive(t', ptr)
  {
    var j: nat :| j < |t.entries| && t.entries[j].utilized && t.entries[j].base == ptr;
    assert Block(t.entries[j].base, t.entries[j].range) in Live(t');
  }

  class Pager {
    var mem: Phys
    const root: nat
    const pages: PageAllocator

    ghost predicate Ok()
      reads this, pages, pages.slots, pages.slots.entries, pages.slots.bitmap
    {
      && pages.Ok() && root < KERNEL_PAGES
      && SelfMapped(mem, root) && TablesDistinct(mem, root)
      && TablesOwned(mem, root, pages.slots.Contents())
    }

    /** The frame that the allocator hands out next. */
    ghost function NextFrame(): nat
      reads pages.slots, pages.slots.entries, pages.slots.bitmap
    {
      FirstClear(pages.slots.Contents().bits)
    }

    /** The tables boot.s leaves behind, and an allocator with the kernel's reservation. */
    constructor (boot: Phys, root: nat, table: nat)
      requires BootTables(boot, root, table)
      ensures Ok() && mem == boot && this.root == root
      ensures |Live(pages.slots.Contents())| == 1
    {
      hide Pages.Reserved, SelfMapped, TablesDistinct, TablesOwned;
      mem := boot;
      this.root := root;
      pages := new PageAllocator();
      new;
      BootOk(boot, root, table, pages.slots.Contents());
      OneLive(pages.slots.Contents());
    }

    /** initialize_allocator after the reservation: the page for the heap is mapped at its
        own address. */
    method InitializeHeap() returns (bottom: Outcome)
      requires Ok() && !Present(mem(root, 1))
      modifies this`mem, pages.slots.entries, pages.slots.bitmap
      ensures bottom.Halted? <==> |old(Live(pages.slots.Contents()))| > MAX_ALLOCATIONS - 2
      ensures bottom.Returned? ==>
              && Ok() && bottom.ptr % PAGE_SIZE == 0 && Dir(bottom.ptr) == 1
              && OnlyMaps(old(mem), mem, root, bottom.ptr, bottom.ptr, true)
              && forall w: nat :: w / 4096 == bottom.ptr / 4096 ==>
                   Translate(mem, root, w) == Some(w) && MayWrite(mem, root, w)
    {
      hide PagesValid, TablesOwned, TablesDistinct, Translate, OnlyMaps, OnlyPermits;
      ghost var t := pages.slots.Contents();
      FullTable(t);
      bottom := pages.AllocatePage();
      if bottom.Returned? {
        FullTable(pages.slots.Contents());
        NotYetLive(t, bottom.ptr);
        OwnedGrows(mem, root, t, pages.slots.Contents());
        assert Dir(bottom.ptr) == 1;
        ghost var was := mem;
        var r := MapPage(bottom.ptr, bottom.ptr, 6);
        if !r.Mapped? {
          return Halted;
        }
        IdentityMapped(was, mem, root, bottom.ptr);
        PagePermitted(was, mem, root, bottom.ptr);
      }
    }

    /** A load or store by virtual address; `None` and `false` are page faults. */
    method Load(va: nat) returns (r: Option<nat>)
      ensures r == match Translate(mem, root, va)
                   case None => None
                   case Some(pa) => Some(mem(pa / 4096, pa % 4096 / 4))
    {
      var pa := Translate(mem, root, va);
      if pa == None {
        return None;
      }
      return Some(mem(pa.value / 4096, pa.value % 4096 / 4));
    }

    method Store(va: nat, v: nat) returns (ok: bool)
      modifies this`mem
      ensures ok <==> old(Translate(mem, root, va).Some? && MayWrite(mem, root, va))
      ensures mem == if ok then old(var pa := Translate(mem, root, va).value; Put(mem, pa / 4096, pa % 4096 / 4, v))
                     else old(mem)
    {
      var pa := Translate(mem, root, va);
      ok := pa.Some? && MayWrite(mem, root, va);
      if ok {
        mem := Put(mem, pa.value / 4096, pa.value % 4096 / 4, v);
      }
    }

    /** The memset through the window: it reaches the table only if the slot is writable. */
    method ClearTable(d: nat) returns (ok: bool)
      requires SelfMapped(mem, root) && d < SELF && Present(mem(root, d)) && mem(root, d) / 4096 != root
      modifies this`mem
      ensures ok <==> old(Writable(mem(root, d)))
      ensures ok ==> ClearedFrame(old(mem), mem, old(mem(root, d)) / 4096)
    {
      ghost var was, frame := mem, mem(root, d) / 4096;
      var t := 0;
      ok := true;
      while t < ENTRIES
        invariant t <= ENTRIES && ok && (t > 0 ==> Writable(was(root, d)))
        invariant forall f: nat, j: nat :: mem(f, j) == if f == frame && j < t then 0 else was(f, j)
      {
        assert SelfMapped(mem, root);
        WindowReaches(mem, root, d, t);
        FrameWord(frame, t);
        ok := Store(Window(d, t), 0);
        if !ok {
          return;
        }
        t := t + 1;
      }
    }

    /** The table for an empty slot: a page from the allocator, entered in the directory
        through its own window and cleared through the slot's. */
    method AddTable(d: nat, flags: nat) returns (r: MapResult)
      requires Ok() && d < SELF && !Present(mem(root, d))
      modifies this`mem, pages.slots.entries, pages.slots.bitmap
      ensures r.MapHalted? <==> forall j: nat :: j < MAX_ALLOCATIONS ==> old(pages.slots.entries[j].utilized)
      ensures r.PageFault? <==> !r.MapHalted? && !Writable(flags)
      ensures r.Mapped? ==>
              && SelfMapped(mem, root) && Present(mem(root, d)) && Writable(mem(root, d))
              && mem(root, d) == MakeEntry(PAGE_SIZE * old(NextFrame()), flags)
              && mem(root, d) / 4096 == Or(old(NextFrame()), flags / 4096) > root
              && forall t: nat :: t < ENTRIES ==> mem(mem(root, d) / 4096, t) == 0
      ensures r.Mapped? && FlagsKeep(old(NextFrame()), flags) ==> Ok() && TableAdded(old(mem), mem, root, d)
    {
      hide PagesValid, TablesOwned, TablesDistinct, Translate, MayWrite, InUse, MakeEntry, ClearedFrame, TableAdded;
      ghost var was, t := mem, pages.slots.Contents();
      var p := pages.AllocatePage();
      if p.Halted? {
        return MapHalted;
      }
      var pde := MakeEntry(p.ptr, flags);
      EntryFlags(p.ptr, flags);
      EntryFrame(p.ptr, flags);
      assert p.ptr / 2 % 2 == 0;
      assert p.ptr / 4096 == old(NextFrame()) >= KERNEL_PAGES;
      NewFrame(mem, root, t, p.ptr);
      WindowReaches(mem, root, SELF, d);
      FrameWord(root, d);
      var stored := Store(Window(SELF, d), pde);
      assert mem == Put(was, root, d, pde);
      var cleared := ClearTable(d);
      if !cleared {
        return PageFault;
      }
      ClearedTable(was, mem, root, d, pde);
      if FlagsKeep(p.ptr / 4096, flags) {
        TableEntered(was, mem, root, d, pde);
        StillOwned(was, mem, root, d, t, pages.slots.Contents());
      }
      return Mapped;
    }

    /** The store of the page's own entry, once the slot has a table. */
    method EnterPage(phys: nat, va: nat, flags: nat) returns (r: MapResult)
      requires SelfMapped(mem, root) && va < ADDRESS_SPACE && Dir(va) < SELF
      requires Present(mem(root, Dir(va))) && mem(root, Dir(va)) / 4096 != root
      modifies this`mem
      ensures var pde := old(mem(root, Dir(va)));
              && (r.MapHalted? <==> Present(old(mem(pde / 4096, Tab(va)))))
              && (r.PageFault? <==> !r.MapHalted? && !Writable(pde))
              && (r.Mapped? ==> mem(pde / 4096, Tab(va)) == MakeEntry(phys, flags % 4096))
              && (r.Mapped? ==> forall d: nat :: mem(root, d) == old(mem)(root, d))
              && (r.Mapped? && old(Ok()) ==>
                    && Ok() && OnlyMaps(old(mem), mem, root, va, phys, false)
                    && OnlyPermits(old(mem), mem, root, va, Writable(phys) || Writable(flags), false))
    {
      hide PagesValid, TablesOwned, TablesDistinct, Translate, MayWrite, InUse, MakeEntry, OnlyMaps, OnlyPermits,
           Present, Writable, Window, Dir, Tab;
      IndexBounds(va);
      ghost var was := mem;
      var d, t := Dir(va), Tab(va);
      WindowReaches(mem, root, d, t);
      FrameWord(mem(root, d) / 4096, t);
      var pte := Load(Window(d, t));
      if Present(pte.value) {
        return MapHalted;
      }
      LowFlags(flags);
      EntryWritable(phys, flags % 4096);
      EntryFrame(phys, flags % 4096);
      var ok := Store(Window(d, t), MakeEntry(phys, flags % 4096));
      if !ok {
        return PageFault;
      }
      if old(Ok()) {
        EntryMaps(was, root, va, phys, MakeEntry(phys, flags % 4096));
        OwnedSame(was, mem, root, pages.slots.Contents());
      }
      return Mapped;
    }

    /** map_page, outside the self-map slot.  The flags go unmasked into a new directory
        entry, which is meant to name the next frame of the allocator: it does so, and the
        mapping is the intended one, exactly when the flags keep that frame. */
    method MapPage(phys: nat, va: nat, flags: nat) returns (r: MapResult)
      requires Ok() && va < ADDRESS_SPACE && Dir(va) < SELF
      modifies this`mem, pages.slots.entries, pages.slots.bitmap
      ensures var pde := old(mem(root, Dir(va)));
              var pte := old(mem(pde / 4096, Tab(va)));
              && (r.MapHalted? <==> if Present(pde) then Present(pte)
                                    else forall j: nat :: j < MAX_ALLOCATIONS ==> old(pages.slots.entries[j].utilized))
              && (r.Mapped? && (Present(pde) || FlagsKeep(old(NextFrame()), flags)) ==>
                    && Ok() && OnlyMaps(old(mem), mem, root, va, phys, !Present(pde))
                    && OnlyPermits(old(mem), mem, root, va, Writable(phys) || Writable(flags), !Present(pde)))
              && (r.Mapped? ==>
                    && mem(mem(root, Dir(va)) / 4096, Tab(va)) == MakeEntry(phys, flags % 4096)
                    && mem(root, Dir(va)) ==
                       if Present(pde) then pde else MakeEntry(PAGE_SIZE * old(NextFrame()), flags))
              && (r.Mapped? && !Present(pde) ==>
                    (mem(root, Dir(va)) / 4096 == old(NextFrame()) <==> FlagsKeep(old(NextFrame()), flags)))
              && (r.PageFault? <==> !r.MapHalted? && !Writable(if Present(pde) then pde else flags))
    {
      hide PagesValid, TablesOwned, TablesDistinct, Translate, MayWrite, InUse, OnlyMaps, OnlyPermits, MakeEntry;
      ghost var was := mem;
      var d := Dir(va);
      WindowReaches(mem, root, SELF, d);
      FrameWord(root, d);
      var pde := Load(Window(SELF, d));
      if !Present(pde.value) {
        r := AddTable(d, flags);
        if !r.Mapped? {
          return;
        }
      }
      ghost var mid := mem;
      assert Tab(va) < ENTRIES;
      ghost var kept := Present(was(root, d)) || FlagsKeep(old(NextFrame()), flags);
      if Present(was(root, d)) {
        TableIsNotRoot(was, root, d);
      }
      r := EnterPage(phys, va, flags);
      if r.Mapped? && kept {
        MapsCompose(was, mid, mem, root, va, phys);
      }
    }

    /** get_physaddr: reads the tables through the windows. */
    method GetPhysAddr(va: nat) returns (r: Option<nat>)
      requires SelfMapped(mem, root) && va < ADDRESS_SPACE
      ensures r == Translate(mem, root, va)
    {
      hide Window, Dir, Tab;
      var d, t := Dir(va), Tab(va);
      IndexBounds(va);
      WindowReaches(mem, root, SELF, d);
      FrameWord(root, d);
      var pde := Load(Window(SELF, d));
      assert pde == Some(mem(root, d));
      if !Present(pde.value) {
        return None;
      }
      WindowReaches(mem, root, d, t);
      FrameWord(mem(root, d) / 4096, t);
      var pte := Load(Window(d, t));
      assert pte == Some(mem(mem(root, d) / 4096, t));
      if !Present(pte.value) {
        return None;
      }
      return Some(pte.value / 4096 * 4096 + va % 4096);
    }
  }

  /** The directory and first table of boot.s: the table under slot 768, the directory under
      slot 1023, both present and writable, and nothing else. */
  ghost predicate BootTables(mem: Phys, root: nat, table: nat) {
    && root < KERNEL_PAGES && table < KERNEL_PAGES && table != root
    && mem(root, SELF) == root * 4096 + 3 && mem(root, 768) == table * 4096 + 3
    && forall d: nat :: d < SELF && d != 768 ==> mem(root, d) == 0
  }

  lemma BootOk(mem: Phys, root: nat, table: nat, t: Table)
    requires BootTables(mem, root, table)
    ensures SelfMapped(mem, root) && TablesDistinct(mem, root) && TablesOwned(mem, root, t)
  {
    EntryOfThree(root);
    EntryOfThree(table);
    forall d: nat | d < SELF && Present(mem(root, d))
      ensures d == 768
    {
    }
  }

  /** Page 0 is not mapped, neither at boot nor after the heap page has been: the block that
      formatting writes from a null pointer cannot be read. */
  lemma NullFaults(boot: Phys, mem: Phys, root: nat, table: nat, bottom: nat, w: nat)
    requires BootTables(boot, root, table) && Dir(bottom) == 1 && w < PAGE_SIZE
    requires OnlyMaps(boot, mem, root, bottom, bottom, true)
    ensures Translate(boot, root, w) == None && Translate(mem, root, w) == None
  {
    assert Dir(w) == 0 && w / 4096 == 0;
    assert Translate(boot, root, w) == None;
    assert bottom / 4096 >= 1024 && Window(1, 0) / 4096 > 0;
  }

  lemma EntryOfThree(frame: nat)
    ensures (frame * 4096 + 3) / 4096 == frame && Present(frame * 4096 + 3) && Writable(frame * 4096 + 3)
  {
    hide Present, Writable;
    var e, half, quarter := frame * 4096 + 3, frame * 2048 + 1, frame * 1024;
    assert e == 2 * half + 1;
    assert half == 2 * quarter + 1;
    FlagBits(e, half, quarter);
  }

  lemma FlagBits(e: nat, half: nat, quarter: nat)
    requires e == 2 * half + 1 && half == 2 * quarter + 1
    ensures Present(e) && Writable(e)
  {
    assert e / 2 == half;
  }

  lemma IdentityMapped(mem: Phys, mem': Phys, root: nat, ptr: nat)
    requires OnlyMaps(mem, mem', root, ptr, ptr, !Present(mem(root, Dir(ptr)))) && ptr < 0x8000_0000
    ensures forall w: nat :: w / 4096 == ptr / 4096 ==> Translate(mem', root, w) == Some(w)
  {
    hide Translate;
    forall w: nat | w / 4096 == ptr / 4096
      ensures Translate(mem', root, w) == Some(w)
    {
      assert w == w / 4096 * 4096 + w % 4096;
    }
  }

  /** After the reservation the kernel's block is the only one. */
  lemma OneLive(t: Table)
    requires Reserved(t)
    ensures |Live(t)| == 1
  {
    assert t.entries[0].utilized;
    assert Live(t) == {Block(t.entries[0].base, t.entries[0].range)};
  }

  lemma FullTable(t: Table)
    requires PagesValid(t)
    ensures |t.entries| == MAX_ALLOCATIONS && |Live(t)| <= MAX_ALLOCATIONS
    ensures |Live(t)| == MAX_ALLOCATIONS <==> forall j: nat :: j < MAX_ALLOCATIONS ==> t.entries[j].utilized
  {
    LiveSize(PAGES, t);
  }

  lemma NotYetLive(t: Table, ptr: nat)
    requires !IsLive(t, ptr)
    ensures forall b :: b in Live(t) ==> b.base != ptr
  {
  }

  lemma PagePermitted(mem: Phys, mem': Phys, root: nat, ptr: nat)
    requires OnlyPermits(mem, mem', root, ptr, true, !Present(mem(root, Dir(ptr)))) && ptr < 0x8000_0000
    ensures forall w: nat :: w / 4096 == ptr / 4096 ==> MayWrite(mem', root, w)
  {
    hide Translate, MayWrite;
    forall w: nat | w / 4096 == ptr / 4096
      ensures MayWrite(mem', root, w)
    {
      assert Access(mem', root, w) == Some(true);
    }
  }

  lemma OwnedGrows(mem: Phys, root: nat, t: Table, t': Table)
    requires TablesOwned(mem, root, t) && Live(t) <= Live(t')
    ensures TablesOwned(mem, root, t')
  {
    forall f: nat | InUse(mem, root, f) && f >= KERNEL_PAGES
      ensures IsLive(t', f * PAGE_SIZE)
    {
      LiveGrows(t, t', f * PAGE_SIZE);
    }
  }

  /** A new table in slot `d` with no page in it: nothing but its window translates anew. */
  ghost predicate TableAdded(mem: Phys, mem': Phys, root: nat, d: nat) {
    && Present(mem'(root, d)) && Writable(mem'(root, d))
    && (forall t: nat :: t < ENTRIES ==> mem'(mem'(root, d) / 4096, t) == 0)
    && (forall w: nat :: w < ADDRESS_SPACE ==>
         Translate(mem', root, w) ==
           if w / 4096 == Window(d, 0) / 4096 then Some(mem'(root, d) / 4096 * 4096 + w % 4096)
           else Translate(mem, root, w))
    && forall w: nat :: w < ADDRESS_SPACE ==>
         Access(mem', root, w) == if w / 4096 == Window(d, 0) / 4096 then Some(true) else Access(mem, root, w)
  }

  lemma TableIsNotRoot(mem: Phys, root: nat, d: nat)
    requires TablesDistinct(mem, root) && d < SELF && Present(mem(root, d))
    ensures mem(root, d) / 4096 != root
  {
  }

  /** Clearing the frame an entry names leaves the directory as it is. */
  lemma ClearedTable(mem: Phys, mem': Phys, root: nat, d: nat, pde: nat)
    requires SelfMapped(mem, root) && d < SELF && pde / 4096 != root
    requires ClearedFrame(Put(mem, root, d, pde), mem', pde / 4096)
    ensures SelfMapped(mem', root) && mem'(root, d) == pde
    ensures forall t: nat :: t < ENTRIES ==> mem'(pde / 4096, t) == 0
  {
  }

  lemma TableEntered(mem: Phys, mem': Phys, root: nat, d: nat, pde: nat)
    requires SelfMapped(mem, root) && TablesDistinct(mem, root) && d < SELF
    requires !Present(mem(root, d)) && Present(pde) && Writable(pde) && !InUse(mem, root, pde / 4096)
    requires ClearedFrame(Put(mem, root, d, pde), mem', pde / 4096)
    ensures TableAdded(mem, mem', root, d) && SelfMapped(mem', root) && TablesDistinct(mem', root)
    ensures mem'(root, d) == pde && forall e: nat :: e != d ==> mem'(root, e) == mem(root, e)
  {
    hide Translate;
    FreshTable(mem, mem', root, d, pde);
  }

  lemma OwnedSame(mem: Phys, mem': Phys, root: nat, t: Table)
    requires TablesOwned(mem, root, t) && forall d: nat :: mem'(root, d) == mem(root, d)
    ensures TablesOwned(mem', root, t)
  {
    forall f: nat | InUse(mem', root, f)
      ensures InUse(mem, root, f)
    {
    }
  }

  /** A page that was not out, above the kernel's, is no table. */
  lemma NewFrame(mem: Phys, root: nat, t: Table, ptr: nat)
    requires TablesOwned(mem, root, t) && root < KERNEL_PAGES
    requires ptr % PAGE_SIZE == 0 && ptr >= KERNEL_PAGES * PAGE_SIZE && !IsLive(t, ptr)
    ensures !InUse(mem, root, ptr / 4096)
  {
    assert ptr / 4096 * PAGE_SIZE == ptr;
  }

  lemma StillOwned(mem: Phys, mem': Phys, root: nat, d: nat, t: Table, t': Table)
    requires TablesOwned(mem, root, t) && Live(t) <= Live(t') && d < SELF
    requires forall e: nat :: e != d ==> mem'(root, e) == mem(root, e)
    requires IsLive(t', mem'(root, d) / 4096 * PAGE_SIZE)
    ensures TablesOwned(mem', root, t')
  {
    forall f: nat | InUse(mem', root, f)
      ensures f < KERNEL_PAGES || IsLive(t', f * PAGE_SIZE)
    {
      if f == root || f != mem'(root, d) / 4096 {
        assert InUse(mem, root, f);
        if f >= KERNEL_PAGES {
          LiveGrows(t, t', f * PAGE_SIZE);
        }
      }
    }
  }

  /** A new empty table, if any, and then one entry. */
  lemma MapsCompose(mem: Phys, mid: Phys, mem': Phys, root: nat, va: nat, phys: nat)
    requires Dir(va) < SELF
    requires OnlyMaps(mid, mem', root, va, phys, false) && forall d: nat :: mem'(root, d) == mid(root, d)
    requires if Present(mem(root, Dir(va))) then mid == mem else TableAdded(mem, mid, root, Dir(va))
    ensures OnlyMaps(mem, mem', root, va, phys, !Present(mem(root, Dir(va))))
    ensures forall on: bool :: OnlyPermits(mid, mem', root, va, on, false) ==>
              OnlyPermits(mem, mem', root, va, on, !Present(mem(root, Dir(va))))
  {
    hide Translate, Access;
  }

  lemma IndexBounds(va: nat)
    requires va < ADDRESS_SPACE
    ensures Dir(va) < ENTRIES && Tab(va) < ENTRIES
  {
  }

  lemma FrameWord(frame: nat, t: nat)
    requires t < ENTRIES
    ensures (frame * 4096 + 4 * t) / 4096 == frame && (frame * 4096 + 4 * t) % 4096 / 4 == t
  {
  }
}
