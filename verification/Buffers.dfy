/** Growable buffers on the kernel heap: the APPEND macro (include/alloc.h), concat and
    string_split (src/alloc.c).

    A buffer of `w`-byte elements is the struct { len, capacity, contents }.  Capacity
    zero means that nothing has been allocated, whatever `len` says. */
module Buffers {
  import opened Bitmap
  import opened SlotTable
  import opened Heap
  import opened Memory
  import opened Pieces

  datatype Buffer = Buffer(len: nat, capacity: nat, contents: nat)

  /** Elements are far smaller than the heap. */
  const MAX_ELEMENT: nat := 4096

  const EMPTY := Buffer(0, 0, 0)

  /** The heap block behind an allocated buffer of `w`-byte elements. */
  ghost predicate HasBlock(v: View, s: Buffer, w: nat) {
    v.bottom <= s.contents && BlockOf(v, s, w) in v.live
  }

  ghost function BlockOf(v: View, s: Buffer, w: nat): Block
    requires v.bottom <= s.contents
  {
    Block(s.contents, BitRange(s.contents - v.bottom, w * s.capacity))
  }

  /** The buffer holds the bytes `xs`, element after element. */
  ghost predicate Holds(v: View, s: Buffer, w: nat, xs: seq<byte>) {
    && Sound(v) && 0 < w <= MAX_ELEMENT
    && if s.capacity == 0 then xs == []
       else s.len <= s.capacity && HasBlock(v, s, w) && |xs| == w * s.len
            && w * s.len <= w * s.capacity
            && Contents(v, BlockOf(v, s, w))[..w * s.len] == xs
  }

  /** What a buffer holds is not affected by what happens to other blocks. */
  lemma HoldsKept(v: View, v': View, gone: set<nat>, s: Buffer, w: nat, xs: seq<byte>)
    requires Holds(v, s, w, xs) && Keeps(v, v', gone)
    requires s.capacity > 0 ==> s.contents !in gone
    ensures Holds(v', s, w, xs)
  {
  }

  datatype Appended = Appended(buffer: Buffer) | AppendHalted

  /** The result of a store past the last element of a buffer with room. */
  lemma StoreHolds(v: View, v': View, s: Buffer, w: nat, xs: seq<byte>, elem: seq<byte>)
    requires Holds(v, s, w, xs) && 0 < s.capacity && s.len < s.capacity && |elem| == w
    requires w * s.len + w <= w * s.capacity
    requires s.contents - v.bottom + w * s.len + w <= |v.mem|
    requires v' == v.(mem := Written(v.mem, s.contents - v.bottom + w * s.len, elem))
    ensures Keeps(v, v', {s.contents})
    ensures Holds(v', s.(len := s.len + 1), w, xs + elem)
  {
    var b := BlockOf(v, s, w);
    assert Placed(v, b);
    var at, k := s.contents - v.bottom, w * s.len;
    assert w * (s.len + 1) == k + w;
    StoreBytes(v.mem, at, w * s.capacity, k, elem);
    WriteKeepsOthers(v, v', b);
  }

  lemma StoreBytes(m: seq<byte>, at: nat, size: nat, k: nat, elem: seq<byte>)
    requires at + size <= |m| && k + |elem| <= size
    ensures Written(m, at + k, elem)[at..at + size][..k + |elem|] == m[at..at + size][..k] + elem
  {
    var now, want := Written(m, at + k, elem)[at..at + size][..k + |elem|], m[at..at + size][..k] + elem;
    forall i | 0 <= i < k + |elem|
      ensures now[i] == want[i]
    {
      assert now[i] == Written(m, at + k, elem)[at + i];
    }
  }

  /** The blocks a buffer gives up when it moves. */
  ghost function Given(s: Buffer): set<nat> {
    if s.capacity == 0 then {} else {s.contents}
  }

  /** A buffer stays where it is, or moves to an address no live block had. */
  ghost predicate StaysOrFresh(v: View, s: Buffer, s': Buffer) {
    (s.capacity > 0 && s'.contents == s.contents) || forall o :: o in v.live ==> o.base != s'.contents
  }

  lemma MovedHolds(v: View, v': View, s: Buffer, w: nat, xs: seq<byte>, ptr: nat)
    requires Holds(v, s, w, xs) && 0 < s.capacity == s.len
    requires Reallocated(v, v', BlockOf(v, s, w), w * s.capacity * 2, ptr)
    ensures Holds(v', Buffer(s.len, s.capacity * 2, ptr), w, xs)
    ensures Keeps(v, v', {s.contents})
    ensures StaysOrFresh(v, s, Buffer(s.len, s.capacity * 2, ptr))
  {
    hide FirstRoom, IsFirstRoom, Refuses, Keeps, Moved;
    var b := BlockOf(v, s, w);
    var n := Block(ptr, BitRange(ptr - v.bottom, w * s.capacity * 2));
    assert w * (s.capacity * 2) == w * s.capacity * 2;
    assert n == BlockOf(v', Buffer(s.len, s.capacity * 2, ptr), w);
    assert Contents(v', n)[..w * s.len] == Contents(v, b) == xs;
  }

  lemma FirstHolds(v: View, ptr: nat, w: nat)
    requires Sound(v) && 0 < w <= MAX_ELEMENT && v.bottom <= ptr
    requires Block(ptr, BitRange(ptr - v.bottom, w * 2)) in v.live
    ensures Holds(v, Buffer(0, 2, ptr), w, [])
  {
  }

  /** What appending does to the set of live blocks and to the struct, or that it halts. */
  datatype Growth = Growth(live: set<Block>, buffer: Buffer) | Stuck

  /** The size of the block that the next append asks for, if it asks for one. */
  function NextSize(s: Buffer, w: nat): nat {
    if s.capacity == 0 then w * 2 else if s.len == s.capacity then w * s.capacity * 2 else 0
  }

  /** The growing half of APPEND on the set of live blocks. */
  ghost function Grown(bottom: nat, live: set<Block>, s: Buffer, w: nat): Growth {
    var size := NextSize(s, w);
    if size == 0 then Growth(live, s)
    else if Refuses(HeapConfig(bottom), live, size) then Stuck
    else
      var start := FirstRoom(HeapConfig(bottom), live, size);
      var kept := set o | o in live && (s.capacity == 0 || o.base != s.contents);
      Growth(kept + {Block(bottom + start, BitRange(start, size))},
             if s.capacity == 0 then Buffer(0, 2, bottom + start) else Buffer(s.len, s.capacity * 2, bottom + start))
  }

  /** APPEND on the set of live blocks. */
  ghost function Pushed(bottom: nat, live: set<Block>, s: Buffer, w: nat): Growth {
    match Grown(bottom, live, s, w)
    case Stuck => Stuck
    case Growth(live', s') => Growth(live', s'.(len := s'.len + 1))
  }

  lemma SmallBlock(v: View, s: Buffer, w: nat)
    requires Sound(v) && HasBlock(v, s, w) && 0 < w && 0 < s.capacity
    ensures 0 < w * s.capacity <= HEAP_UNITS
  {
    assert Placed(v, BlockOf(v, s, w));
  }

  lemma GrownStuck(v: View, s: Buffer, w: nat)
    requires w > 0
    ensures Grown(v.bottom, v.live, s, w).Stuck? <==>
            NextSize(s, w) > 0 && Refuses(HeapConfig(v.bottom), v.live, NextSize(s, w))
    ensures NextSize(s, w) == 0 ==> Grown(v.bottom, v.live, s, w) == Growth(v.live, s)
  {
  }

  lemma GrownFirst(v: View, v': View, s: Buffer, w: nat, ptr: nat)
    requires s.capacity == 0 && 0 < w && v.bottom <= ptr && !Refuses(HeapConfig(v.bottom), v.live, w * 2)
    requires v'.live == v.live + {Block(ptr, BitRange(ptr - v.bottom, w * 2))}
    requires ptr - v.bottom == FirstRoom(HeapConfig(v.bottom), v.live, w * 2)
    ensures Grown(v.bottom, v.live, s, w) == Growth(v'.live, Buffer(0, 2, ptr))
  {
    hide FirstRoom, IsFirstRoom;
    assert v.live == set o | o in v.live && (s.capacity == 0 || o.base != s.contents);
  }

  lemma GrownMoved(v: View, v': View, s: Buffer, w: nat, ptr: nat)
    requires Sound(v) && 0 < w && 0 < s.capacity == s.len && HasBlock(v, s, w)
    requires Reallocated(v, v', BlockOf(v, s, w), w * s.capacity * 2, ptr)
    ensures Grown(v.bottom, v.live, s, w) == Growth(v'.live, Buffer(s.len, s.capacity * 2, ptr))
  {
    hide FirstRoom, IsFirstRoom, NoRoom, Keeps, Moved, HeapConfig, SameBytes;
    OneBlock(v, BlockOf(v, s, w));
    hide Sound;
    assert v.live - {BlockOf(v, s, w)} == set o | o in v.live && (s.capacity == 0 || o.base != s.contents);
    assert w * s.capacity * 2 > 0;
  }

  /** The growing half of APPEND: a first block of two elements, or twice the old one. */
  method Grow(h: KernelHeap, s: Buffer, w: nat, ghost xs: seq<byte>) returns (r: Appended)
    requires h.Ok() && Holds(h.See(), s, w, xs)
    modifies h.slots.entries, h.slots.bitmap, h.mem
    ensures r.AppendHalted? <==> old(Grown(h.See().bottom, h.See().live, s, w)).Stuck?
    ensures r.Appended? ==>
            && h.Ok() && Growth(h.See().live, r.buffer) == old(Grown(h.See().bottom, h.See().live, s, w))
            && r.buffer.len < r.buffer.capacity
            && r.buffer.len == (if s.capacity == 0 then 0 else s.len)
            && Holds(h.See(), r.buffer, w, xs)
            && Keeps(old(h.See()), h.See(), Given(s))
            && StaysOrFresh(old(h.See()), s, r.buffer)
  {
    hide Valid, Reallocated, Contents, Grown, FirstRoom, IsFirstRoom, Refuses, Sound, Keeps;
    ghost var v := h.See();
    GrownStuck(v, s, w);
    if s.capacity == 0 {
      var p := h.Kcalloc(2, w);
      if p.Halted? {
        return AppendHalted;
      }
      assert 2 * w % ADDRESS_SPACE == w * 2;
      FirstHolds(h.See(), p.ptr, w);
      GrownFirst(v, h.See(), s, w, p.ptr);
      return Appended(Buffer(0, 2, p.ptr));
    } else if s.len == s.capacity {
      SmallBlock(v, s, w);
      assert w * s.capacity * 2 % ADDRESS_SPACE == w * s.capacity * 2;
      var p := h.Krealloc(s.contents, w * s.capacity * 2 % ADDRESS_SPACE);
      if p.Halted? {
        return AppendHalted;
      }
      MovedHolds(v, h.See(), s, w, xs, p.ptr);
      GrownMoved(v, h.See(), s, w, p.ptr);
      return Appended(Buffer(s.len, s.capacity * 2, p.ptr));
    }
    KeepsSame(v, Given(s));
    return Appended(s);
  }

  lemma KeepsSame(v: View, gone: set<nat>)
    requires Sound(v)
    ensures Keeps(v, v, gone)
  {
  }

  /** APPEND(s, elem). */
  method Append(h: KernelHeap, s: Buffer, w: nat, elem: seq<byte>, ghost xs: seq<byte>) returns (r: Appended)
    requires h.Ok() && Holds(h.See(), s, w, xs) && |elem| == w
    modifies h.slots.entries, h.slots.bitmap, h.mem
    ensures r.AppendHalted? <==> old(Pushed(h.See().bottom, h.See().live, s, w)).Stuck?
    ensures r.Appended? ==>
            && h.Ok() && Growth(h.See().live, r.buffer) == old(Pushed(h.See().bottom, h.See().live, s, w))
            && 0 < r.buffer.len <= r.buffer.capacity
            && r.buffer.len == (if s.capacity == 0 then 1 else s.len + 1)
            && Holds(h.See(), r.buffer, w, xs + elem)
            && Keeps(old(h.See()), h.See(), Given(s))
            && StaysOrFresh(old(h.See()), s, r.buffer)
  {
    hide Valid, Sound, Grown, Keeps, Holds, Written;
    ghost var v := h.See();
    r := Grow(h, s, w, xs);
    if r.Appended? {
      ghost var v1 := h.See();
      var grown := r.buffer;
      RoomForOne(v1, grown, w, xs);
      MemWrite(h.mem, grown.contents - h.slots.cfg.bottom + w * grown.len, elem);
      StoreHolds(v1, h.See(), grown, w, xs, elem);
      AppendKeeps(v, v1, h.See(), s, grown);
      r := Appended(grown.(len := grown.len + 1));
    }
  }

  lemma RoomForOne(v: View, s: Buffer, w: nat, xs: seq<byte>)
    requires Holds(v, s, w, xs) && s.len < s.capacity
    ensures w * s.len + w <= w * s.capacity
    ensures v.bottom <= s.contents && s.contents - v.bottom + w * s.len + w <= |v.mem|
  {
    hide Sound, Contents, Placed;
    TimesRoom(w, s.len, s.capacity);
    BlockBounds(v, s, w);
  }

  lemma TimesRoom(w: nat, a: nat, b: nat)
    requires a < b
    ensures w * a + w <= w * b
  {
    assert w * (a + 1) <= w * b;
  }

  lemma BlockBounds(v: View, s: Buffer, w: nat)
    requires Sound(v) && HasBlock(v, s, w)
    ensures s.contents - v.bottom + w * s.capacity <= |v.mem|
  {
    assert Placed(v, BlockOf(v, s, w));
  }

  /** A fresh block is none of the blocks that are kept. */
  lemma AppendKeeps(v: View, v1: View, v2: View, s: Buffer, grown: Buffer)
    requires Keeps(v, v1, Given(s)) && Keeps(v1, v2, {grown.contents}) && StaysOrFresh(v, s, grown)
    ensures Keeps(v, v2, Given(s))
  {
    KeepsTransitive(v, v1, v2, Given(s), {grown.contents});
  }

  /** `n` appends of single bytes, on the set of live blocks. */
  ghost function Pushes(bottom: nat, live: set<Block>, s: Buffer, n: nat): Growth {
    if n == 0 then Growth(live, s)
    else
      match Pushes(bottom, live, s, n - 1)
      case Stuck => Stuck
      case Growth(live', s') => Pushed(bottom, live', s', 1)
  }

  /** The room of a buffer after `n` appends: two to begin with, doubled as often as needed. */
  function Doubling(n: nat): nat {
    if n <= 2 then 2 else 2 * Doubling((n + 1) / 2)
  }

  /** The least power of two, from two on, that is no less. */
  lemma {:induction false} DoublingIs(n: nat)
    ensures n <= Doubling(n) && (n > 2 ==> Doubling(n) < 2 * n)
    ensures Doubling(n + 1) == if n >= 2 && Doubling(n) == n then 2 * Doubling(n) else Doubling(n)
  {
    if n > 2 {
      DoublingIs((n + 1) / 2);
      DoublingIs(n / 2);
    }
  }

  /** An empty buffer that has not halted has taken every append, in logarithmically many
      moves: its room is less than twice what it holds, or two. */
  lemma {:induction false} PushesLaw(bottom: nat, live: set<Block>, n: nat)
    ensures var g := Pushes(bottom, live, EMPTY, n);
            g.Growth? && n > 0 ==> g.buffer.len == n && g.buffer.capacity == Doubling(n)
  {
    hide Refuses, FirstRoom, Doubling;
    if n > 0 {
      PushesLaw(bottom, live, n - 1);
      DoublingIs(n - 1);
      DoublingTwo();
    }
  }

  lemma DoublingTwo()
    ensures Doubling(0) == 2 && Doubling(1) == 2 && Doubling(2) == 2
  {
  }

  lemma {:induction false} StuckStays(bottom: nat, live: set<Block>, s: Buffer, n: nat, m: nat)
    requires n <= m && Pushes(bottom, live, s, n).Stuck?
    ensures Pushes(bottom, live, s, m).Stuck?
  {
    if n < m {
      StuckStays(bottom, live, s, n, m - 1);
    }
  }

  /** concat: appends a C string, one character at a time. */
  method Concat(h: KernelHeap, dst: Buffer, src: seq<byte>, ghost xs: seq<byte>) returns (r: Appended)
    requires h.Ok() && Holds(h.See(), dst, 1, xs)
    modifies h.slots.entries, h.slots.bitmap, h.mem
    ensures r.AppendHalted? <==> old(Pushes(h.See().bottom, h.See().live, dst, |src|)).Stuck?
    ensures r.Appended? ==>
            && h.Ok() && Growth(h.See().live, r.buffer) == old(Pushes(h.See().bottom, h.See().live, dst, |src|))
            && Holds(h.See(), r.buffer, 1, xs + src)
            && Keeps(old(h.See()), h.See(), Given(dst))
            && (src != [] ==> |xs| + |src| == r.buffer.len <= r.buffer.capacity)
  {
    hide Valid, Sound, Pushed, Holds, Keeps, StaysOrFresh;
    ghost var v := h.See();
    KeepsSame(v, Given(dst));
    r := Appended(dst);
    var i := 0;
    assert xs + src[..0] == xs;
    while i < |src|
      invariant i <= |src| && h.Ok() && r.Appended?
      invariant Holds(h.See(), r.buffer, 1, xs + src[..i])
      invariant Keeps(v, h.See(), Given(dst))
      invariant Pushes(v.bottom, v.live, dst, i) == Growth(h.See().live, r.buffer)
      invariant if i == 0 then r.buffer == dst && h.See() == v
                else r.buffer.capacity > 0 && StaysOrFresh(v, dst, r.buffer)
    {
      ghost var v1 := h.See();
      var before := r.buffer;
      r := Append(h, before, 1, [src[i]], xs + src[..i]);
      if r.AppendHalted? {
        StuckStays(v.bottom, v.live, dst, i + 1, |src|);
        return;
      }
      assert xs + src[..i] + [src[i]] == xs + src[..i + 1];
      if i > 0 {
        AppendKeeps(v, v1, h.See(), dst, before);
        MovesChain(v, v1, dst, before, r.buffer);
      }
      i := i + 1;
    }
    assert src[..|src|] == src;
    HoldsLength(h.See(), r.buffer, xs + src);
  }

  lemma HoldsLength(v: View, s: Buffer, xs: seq<byte>)
    requires Holds(v, s, 1, xs)
    ensures s.capacity > 0 ==> |xs| == s.len <= s.capacity
  {
  }

  lemma MovesChain(v: View, v1: View, s: Buffer, s1: Buffer, s2: Buffer)
    requires Keeps(v, v1, Given(s)) && s1.capacity > 0
    requires StaysOrFresh(v, s, s1) && StaysOrFresh(v1, s1, s2)
    ensures StaysOrFresh(v, s, s2)
  {
  }

  // --------------------------------------------------------- string_split

  const STRING_SIZE: nat := 12

  /** The String struct as it is stored in a list: three 32-bit fields. */
  function Encode(s: Buffer): (bs: seq<byte>)
    ensures |bs| == STRING_SIZE
  {
    U32(s.len % WORD_LIMIT) + U32(s.capacity % WORD_LIMIT) + U32(s.contents % WORD_LIMIT)
  }

  function Decode(bs: seq<byte>): Buffer
    requires |bs| == STRING_SIZE
  {
    Buffer(FromU32(bs[0..4]), FromU32(bs[4..8]), FromU32(bs[8..12]))
  }

  lemma DecodeEncode(s: Buffer)
    requires s.len < WORD_LIMIT && s.capacity < WORD_LIMIT && s.contents < WORD_LIMIT
    ensures Decode(Encode(s)) == s
  {
    hide U32, FromU32;
    var bs := Encode(s);
    assert bs[0..4] == U32(s.len) && bs[4..8] == U32(s.capacity) && bs[8..12] == U32(s.contents);
    U32RoundTrip(s.len);
    U32RoundTrip(s.capacity);
    U32RoundTrip(s.contents);
  }

  /** The struct in memory: length, capacity and pointer, four bytes each. */
  lemma StringLayout(s: Buffer)
    requires s.len < WORD_LIMIT && s.capacity < WORD_LIMIT && s.contents < WORD_LIMIT
    ensures Little(Encode(s), 0) == s.len && Little(Encode(s), 4) == s.capacity && Little(Encode(s), 8) == s.contents
  {
    hide U32, Little;
    var bs := Encode(s);
    assert bs[0..4] == U32(s.len) && bs[4..8] == U32(s.capacity) && bs[8..12] == U32(s.contents);
    LittleAt(bs, 0, s.len);
    LittleAt(bs, 4, s.capacity);
    LittleAt(bs, 8, s.contents);
  }

  function EncodeAll(strs: seq<Buffer>): (bs: seq<byte>)
    ensures |bs| == STRING_SIZE * |strs|
  {
    if strs == [] then [] else EncodeAll(strs[..|strs| - 1]) + Encode(strs[|strs| - 1])
  }

  lemma {:induction false} EncodedAt(strs: seq<Buffer>, i: nat)
    requires i < |strs|
    ensures EncodeAll(strs)[STRING_SIZE * i..STRING_SIZE * i + STRING_SIZE] == Encode(strs[i])
  {
    if i < |strs| - 1 {
      var init := strs[..|strs| - 1];
      EncodedAt(init, i);
      assert EncodeAll(strs)[STRING_SIZE * i..STRING_SIZE * i + STRING_SIZE]
          == EncodeAll(init)[STRING_SIZE * i..STRING_SIZE * i + STRING_SIZE];
    }
  }

  /** An element of a list of strings decodes, from the bytes of the list's block, to the
      struct that was appended. */
  lemma ListElement(bytes: seq<byte>, strs: seq<Buffer>, i: nat)
    requires |EncodeAll(strs)| <= |bytes| && bytes[..|EncodeAll(strs)|] == EncodeAll(strs) && i < |strs|
    requires strs[i].len < WORD_LIMIT && strs[i].capacity < WORD_LIMIT && strs[i].contents < WORD_LIMIT
    ensures STRING_SIZE * i + STRING_SIZE <= |bytes|
    ensures Decode(bytes[STRING_SIZE * i..STRING_SIZE * i + STRING_SIZE]) == strs[i]
  {
    hide Encode, Decode, EncodeAll;
    EncodedAt(strs, i);
    SliceOfPrefix(bytes, EncodeAll(strs), STRING_SIZE * i, STRING_SIZE * i + STRING_SIZE);
    DecodeEncode(strs[i]);
  }

  lemma SliceOfPrefix(c: seq<byte>, all: seq<byte>, lo: nat, hi: nat)
    requires |all| <= |c| && c[..|all|] == all && lo <= hi <= |all|
    ensures c[lo..hi] == all[lo..hi]
  {
    forall j | lo <= j < hi
      ensures c[j] == all[j]
    {
      assert c[..|all|][j] == c[j];
    }
  }

  /** Allocated, NUL-terminated strings holding the pieces, no two in one block. */
  ghost predicate Strings(v: View, strs: seq<Buffer>, pieces: seq<seq<byte>>) {
    && |strs| == |pieces|
    && (forall i :: 0 <= i < |strs| ==> strs[i].capacity > 0 && Holds(v, strs[i], 1, pieces[i] + [0]))
    && forall i, j :: 0 <= i < j < |strs| ==> strs[i].contents != strs[j].contents
  }

  /** `s` has its own block: it is none of `strs`, and none of the blocks live in `v0`. */
  ghost predicate Own(v0: View, strs: seq<Buffer>, s: Buffer) {
    s.capacity > 0 ==>
      && (forall i :: 0 <= i < |strs| ==> strs[i].contents != s.contents)
      && forall o :: o in v0.live ==> o.base != s.contents
  }

  /** An append to `s` leaves the other strings and the original blocks alone. */
  lemma AppendAmong(v0: View, v: View, v': View, strs: seq<Buffer>, pieces: seq<seq<byte>>, s: Buffer, s': Buffer)
    requires Strings(v, strs, pieces) && Own(v0, strs, s) && Keeps(v0, v, {})
    requires Keeps(v, v', Given(s)) && StaysOrFresh(v, s, s')
    ensures Strings(v', strs, pieces) && Own(v0, strs, s') && Keeps(v0, v', {})
  {
    forall i | 0 <= i < |strs|
      ensures Holds(v', strs[i], 1, pieces[i] + [0]) && strs[i].contents != s'.contents
    {
      HoldsKept(v, v', Given(s), strs[i], 1, pieces[i] + [0]);
    }
  }

  /** An append to `s` leaves another buffer alone. */
  lemma AppendBeside(v: View, v': View, s: Buffer, s': Buffer, t: Buffer, w: nat, xs: seq<byte>)
    requires Holds(v, t, w, xs) && Keeps(v, v', Given(s)) && StaysOrFresh(v, s, s')
    requires s.capacity > 0 && t.capacity > 0 ==> s.contents != t.contents
    ensures Holds(v', t, w, xs)
    ensures t.capacity > 0 ==> t.contents != s'.contents
  {
    HoldsKept(v, v', Given(s), t, w, xs);
  }

  /** The state of string_split: finished strings, their list, and the piece in progress. */
  ghost predicate Splitting(v0: View, v: View, list: Buffer, strs: seq<Buffer>, pieces: seq<seq<byte>>, curr: Buffer,
                            text: seq<byte>) {
    && Strings(v, strs, pieces) && Keeps(v0, v, {})
    && Holds(v, list, STRING_SIZE, EncodeAll(strs)) && Own(v0, strs, list)
    && (list.capacity == 0 ==> strs == []) && (list.capacity > 0 ==> list.len == |strs|)
    && Holds(v, curr, 1, text) && Own(v0, strs, curr)
    && (curr.capacity > 0 && list.capacity > 0 ==> curr.contents != list.contents)
  }

  lemma CharAppended(v0: View, v: View, v': View, list: Buffer, strs: seq<Buffer>, pieces: seq<seq<byte>>,
                     curr: Buffer, text: seq<byte>, c: byte, curr': Buffer)
    requires Splitting(v0, v, list, strs, pieces, curr, text)
    requires Holds(v', curr', 1, text + [c]) && Keeps(v, v', Given(curr)) && StaysOrFresh(v, curr, curr')
    ensures Splitting(v0, v', list, strs, pieces, curr', text + [c])
  {
    AppendAmong(v0, v, v', strs, pieces, curr, curr');
    AppendBeside(v, v', curr, curr', list, STRING_SIZE, EncodeAll(strs));
  }

  lemma PieceFinished(v0: View, v: View, v': View, list: Buffer, strs: seq<Buffer>, pieces: seq<seq<byte>>,
                      curr: Buffer, piece: seq<byte>, list': Buffer)
    requires Splitting(v0, v, list, strs, pieces, curr, piece + [0]) && curr.capacity > 0
    requires Holds(v', list', STRING_SIZE, EncodeAll(strs) + Encode(curr)) && list'.capacity > 0
    requires list'.len == (if list.capacity == 0 then 1 else list.len + 1)
    requires Keeps(v, v', Given(list)) && StaysOrFresh(v, list, list')
    ensures Splitting(v0, v', list', strs + [curr], pieces + [piece], curr.(capacity := 0), [])
  {
    hide Sound, Keeps, Holds, Encode, Strings, Own;
    AppendAmong(v0, v, v', strs, pieces, list, list');
    AppendBeside(v, v', list, list', curr, 1, piece + [0]);
    assert (strs + [curr])[..|strs|] == strs;
    StringsExtend(v0, v', strs, pieces, curr, piece, list');
    EmptyHolds(v', list', STRING_SIZE, EncodeAll(strs) + Encode(curr), curr.(capacity := 0));
  }

  lemma StringsExtend(v0: View, v: View, strs: seq<Buffer>, pieces: seq<seq<byte>>, s: Buffer, piece: seq<byte>,
                      list: Buffer)
    requires Strings(v, strs, pieces) && Holds(v, s, 1, piece + [0]) && s.capacity > 0
    requires Own(v0, strs, s) && Own(v0, strs, list) && (list.capacity > 0 ==> list.contents != s.contents)
    ensures Strings(v, strs + [s], pieces + [piece])
    ensures Own(v0, strs + [s], list) && Own(v0, strs + [s], s.(capacity := 0))
  {
    hide Holds, Sound;
  }

  lemma EmptyHolds(v: View, t: Buffer, w: nat, xs: seq<byte>, s: Buffer)
    requires Holds(v, t, w, xs) && s.capacity == 0
    ensures Holds(v, s, 1, [])
  {
  }

  lemma SplittingStart(v: View)
    requires Sound(v)
    ensures Splitting(v, v, EMPTY, [], [], EMPTY, [])
  {
  }

  /** What string_split does to the set of live blocks, its list and its current string. */
  datatype SplitGrowth = SplitGrowth(live: set<Block>, list: Buffer, curr: Buffer) | SplitStuck

  /** The end of a piece: a NUL for the string, and a place for it on the list. */
  ghost function Finished(bottom: nat, live: set<Block>, list: Buffer, curr: Buffer): SplitGrowth {
    match Pushed(bottom, live, curr, 1)
    case Stuck => SplitStuck
    case Growth(live1, last) =>
      match Pushed(bottom, live1, list, STRING_SIZE)
      case Stuck => SplitStuck
      case Growth(live2, list') => SplitGrowth(live2, list', last.(capacity := 0))
  }

  /** The rest of string_split, from a state in which `s` is still to be read. */
  ghost function SplitGrows(bottom: nat, live: set<Block>, list: Buffer, curr: Buffer,
                            s: seq<byte>, delim: byte, reserve: bool, inString: bool): SplitGrowth
    decreases |s|
  {
    if s == [] then
      if curr.len > 0 then Finished(bottom, live, list, curr) else SplitGrowth(live, list, curr)
    else
      var quoted := if s[0] == QUOTE then !inString else inString;
      if s[0] == delim && (!quoted || !reserve) then
        match Finished(bottom, live, list, curr)
        case SplitStuck => SplitStuck
        case SplitGrowth(live', list', curr') => SplitGrows(bottom, live', list', curr', s[1..], delim, reserve, quoted)
      else
        match Pushed(bottom, live, curr, 1)
        case Stuck => SplitStuck
        case Growth(live', curr') => SplitGrows(bottom, live', list, curr', s[1..], delim, reserve, quoted)
  }

  /** One character read. */
  lemma SplitGrowsNext(bottom: nat, live: set<Block>, list: Buffer, curr: Buffer,
                       s: seq<byte>, i: nat, delim: byte, reserve: bool, inString: bool)
    requires i < |s|
    ensures var quoted := if s[i] == QUOTE then !inString else inString;
            SplitGrows(bottom, live, list, curr, s[i..], delim, reserve, inString) ==
            if s[i] == delim && (!quoted || !reserve) then
              (match Finished(bottom, live, list, curr)
               case SplitStuck => SplitStuck
               case SplitGrowth(live', list', curr') =>
                 SplitGrows(bottom, live', list', curr', s[i + 1..], delim, reserve, quoted))
            else
              (match Pushed(bottom, live, curr, 1)
               case Stuck => SplitStuck
               case Growth(live', curr') => SplitGrows(bottom, live', list, curr', s[i + 1..], delim, reserve, quoted))
  {
    assert s[i..][1..] == s[i + 1..];
  }

  lemma SplitGrowsLast(bottom: nat, live: set<Block>, list: Buffer, curr: Buffer, s: seq<byte>, delim: byte,
                       reserve: bool, inString: bool)
    ensures SplitGrows(bottom, live, list, curr, s[|s|..], delim, reserve, inString) ==
            if curr.len > 0 then Finished(bottom, live, list, curr) else SplitGrowth(live, list, curr)
  {
  }

  datatype SplitResult = SplitInto(list: Buffer) | SplitHalted

  /** Ends the piece in progress and puts it on the list. */
  method Finish(h: KernelHeap, list: Buffer, curr: Buffer,
                ghost v0: View, ghost strs: seq<Buffer>, ghost pieces: seq<seq<byte>>, ghost text: seq<byte>)
    returns (r: SplitResult, last: Buffer)
    requires h.Ok() && Splitting(v0, h.See(), list, strs, pieces, curr, text)
    modifies h.slots.entries, h.slots.bitmap, h.mem
    ensures r.SplitHalted? <==> old(Finished(h.See().bottom, h.See().live, list, curr)).SplitStuck?
    ensures r.SplitInto? ==>
            && h.Ok()
            && SplitGrowth(h.See().live, r.list, last.(capacity := 0)) ==
               old(Finished(h.See().bottom, h.See().live, list, curr))
            && r.list.capacity > 0 && last.capacity > 0 && last.len > 0
            && Splitting(v0, h.See(), r.list, strs + [last], pieces + [text], last.(capacity := 0), [])
  {
    hide Valid, Sound, Keeps, Holds, Strings, Pushed, Splitting;
    ghost var v := h.See();
    SplittingParts(v0, v, list, strs, pieces, curr, text);
    last := EMPTY;
    var a := Append(h, curr, 1, [0], text);
    if a.AppendHalted? {
      return SplitHalted, EMPTY;
    }
    ghost var v1 := h.See();
    CharAppended(v0, v, v1, list, strs, pieces, curr, text, 0, a.buffer);
    SplittingParts(v0, v1, list, strs, pieces, a.buffer, text + [0]);
    var b := Append(h, list, STRING_SIZE, Encode(a.buffer), EncodeAll(strs));
    if b.AppendHalted? {
      return SplitHalted, EMPTY;
    }
    PieceFinished(v0, v1, h.See(), list, strs, pieces, a.buffer, text, b.buffer);
    return SplitInto(b.buffer), a.buffer;
  }

  lemma SplittingParts(v0: View, v: View, list: Buffer, strs: seq<Buffer>, pieces: seq<seq<byte>>, curr: Buffer,
                       text: seq<byte>)
    requires Splitting(v0, v, list, strs, pieces, curr, text)
    ensures Holds(v, curr, 1, text) && Keeps(v0, v, {}) && Strings(v, strs, pieces)
    ensures Holds(v, list, STRING_SIZE, EncodeAll(strs))
    ensures list.capacity > 0 ==> list.len == |strs|
    ensures list.capacity == 0 ==> strs == []
  {
  }

  lemma NextPiece(s: seq<byte>, i: nat, delim: byte, reserve: bool, inString: bool, text: seq<byte>,
                  pieces: seq<seq<byte>>)
    requires i < |s|
    ensures var quoted := if s[i] == QUOTE then !inString else inString;
            pieces + SplitFrom(s[i..], delim, reserve, inString, text) ==
            if s[i] == delim && (!quoted || !reserve)
            then (pieces + [text]) + SplitFrom(s[i + 1..], delim, reserve, quoted, [])
            else pieces + SplitFrom(s[i + 1..], delim, reserve, quoted, text + [s[i]])
  {
    var quoted := if s[i] == QUOTE then !inString else inString;
    assert s[i..][1..] == s[i + 1..];
    var rest := SplitFrom(s[i + 1..], delim, reserve, quoted, []);
    assert pieces + ([text] + rest) == (pieces + [text]) + rest;
  }

  lemma LastPiece(s: seq<byte>, delim: byte, reserve: bool, inString: bool, text: seq<byte>, pieces: seq<seq<byte>>)
    ensures pieces + SplitFrom(s[|s|..], delim, reserve, inString, text) == pieces + [text]
  {
  }

  /** string_split.  The struct `curr` keeps its stale length when its capacity is reset,
      which is what makes a trailing delimiter end in an empty piece. */
  method StringSplit(h: KernelHeap, s: seq<byte>, delim: byte, reserve: bool)
    returns (r: SplitResult, ghost strs: seq<Buffer>)
    requires h.Ok()
    modifies h.slots.entries, h.slots.bitmap, h.mem
    ensures var g := old(SplitGrows(h.See().bottom, h.See().live, EMPTY, EMPTY, s, delim, reserve, false));
            && (r.SplitHalted? <==> g.SplitStuck?)
            && (r.SplitInto? ==> h.Ok() && h.See().live == g.live && r.list == g.list)
    ensures r.SplitInto? ==>
            && h.Ok() && Keeps(old(h.See()), h.See(), {})
            && Strings(h.See(), strs, Split(s, delim, reserve))
            && Holds(h.See(), r.list, STRING_SIZE, EncodeAll(strs))
            && r.list.len == |strs|
  {
    hide Valid, Sound, Keeps, Holds, Strings, Own, Splitting, SplitFrom, SplitGrows, Finished, Pushed;
    ghost var v0 := h.See();
    SplittingStart(v0);
    var list, curr := EMPTY, EMPTY;
    strs := [];
    ghost var pieces: seq<seq<byte>> := [];
    ghost var text: seq<byte> := [];
    var i := 0;
    var inString := false;
    ghost var whole := SplitFrom(s, delim, reserve, false, []);
    ghost var growth := SplitGrows(v0.bottom, v0.live, EMPTY, EMPTY, s, delim, reserve, false);
    assert s[0..] == s && [] + whole == whole;
    while i < |s|
      invariant i <= |s| && h.Ok()
      invariant Splitting(v0, h.See(), list, strs, pieces, curr, text)
      invariant whole == pieces + SplitFrom(s[i..], delim, reserve, inString, text)
      invariant growth == SplitGrows(v0.bottom, h.See().live, list, curr, s[i..], delim, reserve, inString)
      invariant i > 0 ==> curr.len > 0
      invariant i == 0 ==> list == EMPTY && curr == EMPTY
    {
      NextPiece(s, i, delim, reserve, inString, text, pieces);
      SplitGrowsNext(v0.bottom, h.See().live, list, curr, s, i, delim, reserve, inString);
      if s[i] == QUOTE {
        inString := !inString;
      }
      if s[i] == delim && (!inString || !reserve) {
        var f, last := Finish(h, list, curr, v0, strs, pieces, text);
        if f.SplitHalted? {
          return SplitHalted, [];
        }
        list, strs, pieces, text := f.list, strs + [last], pieces + [text], [];
        curr := last.(capacity := 0);
      } else {
        ghost var v := h.See();
        SplittingParts(v0, v, list, strs, pieces, curr, text);
        var a := Append(h, curr, 1, [s[i]], text);
        if a.AppendHalted? {
          return SplitHalted, [];
        }
        CharAppended(v0, v, h.See(), list, strs, pieces, curr, text, s[i], a.buffer);
        curr, text := a.buffer, text + [s[i]];
      }
      i := i + 1;
    }
    LastPiece(s, delim, reserve, inString, text, pieces);
    SplitGrowsLast(v0.bottom, h.See().live, list, curr, s, delim, reserve, inString);
    if curr.len > 0 {
      var f, last := Finish(h, list, curr, v0, strs, pieces, text);
      if f.SplitHalted? {
        return SplitHalted, [];
      }
      list, strs, pieces, text := f.list, strs + [last], pieces + [text], [];
      curr := last.(capacity := 0);
    }
    SplittingParts(v0, h.See(), list, strs, pieces, curr, text);
    return SplitInto(list), strs;
  }
}
