/** The byte images that shutdown writes to the metadata blocks and that a mount reads
    back: the super block, the two bitmaps and the inode table.

    The original writes and reads the memory of its structures as it is, so these are the
    memory layouts of an i686: little-endian words, and 48-byte inodes that straddle the
    blocks of the table.  Padding is written as zero. */
module Images {
  import opened Common
  import opened Memory
  import opened Layout
  import opened FsState

  const INODE_BYTES: nat := 48
  const TABLE_BLOCKS: nat := 5
  const SUPER_BYTES: nat := 52
  const INDICATOR_BYTES: nat := 16

  function Zeros(n: nat): (z: seq<byte>)
    ensures |z| == n && forall i :: 0 <= i < n ==> z[i] == 0
  {
    seq(n, _ => 0)
  }

  // -------------------------------------------------------------- bitmaps

  /** Bit `t` of a byte, from the least significant end. */
  predicate TestBit(x: byte, t: nat) {
    Halved(x, t) % 2 == 1
  }

  function Pow2(n: nat): nat {
    if n == 0 then 1 else 2 * Pow2(n - 1)
  }

  /** The number whose bits from the least significant end are f(t), f(t + 1), ..., f(7). */
  function BitsFrom(f: nat -> bool, t: nat): (x: nat)
    requires t <= 8
    ensures x < Pow2(8 - t)
    decreases 8 - t
  {
    if t == 8 then 0 else (if f(t) then 1 else 0) + 2 * BitsFrom(f, t + 1)
  }

  function ByteOf(f: nat -> bool): byte {
    BitsFrom(f, 0)
  }

  lemma BitsStep(f: nat -> bool, t: nat)
    requires t < 8
    ensures BitsFrom(f, t) / 2 == BitsFrom(f, t + 1)
    ensures BitsFrom(f, t) % 2 == 1 <==> f(t)
  {
    hide Pow2;
    var x, y := BitsFrom(f, t), BitsFrom(f, t + 1);
    assert x == (if f(t) then 1 else 0) + 2 * y;
    hide BitsFrom;
    Halves(if f(t) then 1 else 0, y);
  }

  lemma Halves(b: nat, y: nat)
    requires b < 2
    ensures (b + 2 * y) / 2 == y && (b + 2 * y) % 2 == b
  {
  }

  lemma {:induction false} HalvedBits(f: nat -> bool, k: nat, t: nat)
    requires k + t <= 8
    ensures Halved(BitsFrom(f, k), t) == BitsFrom(f, k + t)
    decreases t
  {
    hide BitsFrom, Pow2;
    if t > 0 {
      BitsStep(f, k);
      HalvedBits(f, k + 1, t - 1);
    }
  }

  lemma ByteRoundTrip(f: nat -> bool, t: nat)
    requires t < 8
    ensures TestBit(ByteOf(f), t) == f(t)
  {
    hide Halved, Pow2, BitsFrom;
    HalvedBits(f, 0, t);
    BitsStep(f, t);
  }

  /** The bitmap position held by bit `t` of byte `j`: words are little-endian in memory
      and number their bits from the most significant end. */
  function Position(j: nat, t: nat): nat
    requires t < 8
  {
    32 * (j / 4) + 31 - 8 * (j % 4) - t
  }

  function ByteIndex(n: nat): nat {
    4 * (n / 32) + (31 - n % 32) / 8
  }

  function BitIndex(n: nat): (t: nat)
    ensures t < 8
  {
    (31 - n % 32) % 8
  }

  lemma PositionIndex(n: nat)
    ensures Position(ByteIndex(n), BitIndex(n)) == n
    ensures n < BITMAP_BITS ==> ByteIndex(n) < BLOCK_BYTES
  {
    assert ByteIndex(n) / 4 == n / 32 && ByteIndex(n) % 4 == (31 - n % 32) / 8;
  }

  function ImageByte(bits: set<nat>, j: nat): byte {
    ByteOf((t: nat) => t < 8 && Position(j, t) in bits)
  }

  function BitmapImage(bits: set<nat>): Block {
    seq(BLOCK_BYTES, j requires 0 <= j < BLOCK_BYTES => ImageByte(bits, j))
  }

  function ImageBits(b: Block): set<nat> {
    set n: nat | n < BITMAP_BITS && ImageHas(b, n)
  }

  predicate ImageHas(b: Block, n: nat)
    requires n < BITMAP_BITS
  {
    PositionIndex(n);
    TestBit(b[ByteIndex(n)], BitIndex(n))
  }

  /** A bitmap survives being written to a block and read back. */
  lemma BitmapRoundTrip(bits: set<nat>)
    requires forall n: nat :: n in bits ==> n < BITMAP_BITS
    ensures ImageBits(BitmapImage(bits)) == bits
  {
    hide TestBit, ByteOf, Position, ByteIndex, BitIndex;
    forall n: nat | n < BITMAP_BITS
      ensures ImageHas(BitmapImage(bits), n) <==> n in bits
    {
      PositionIndex(n);
      var j, t := ByteIndex(n), BitIndex(n);
      ByteRoundTrip((u: nat) => u < 8 && Position(j, u) in bits, t);
    }
  }

  lemma {:induction false} HalvedMore(x: nat, j: nat, k: nat)
    ensures Halved(x, j + k) == Halved(Halved(x, j), k)
  {
    if j > 0 {
      HalvedMore(x / 2, j - 1, k);
    }
  }

  /** The bits below `m` are not affected by what is added above. */
  lemma {:induction false} LowBit(b: nat, m: nat, r: nat, t: nat)
    requires t < m
    ensures Halved(b + Pow2(m) * r, t) % 2 == Halved(b, t) % 2
  {
    var q := Pow2(m - 1) * r;
    assert Pow2(m) * r == 2 * q;
    HalfOfSum(b, q);
    if t > 0 {
      LowBit(b / 2, m - 1, r, t - 1);
    }
  }

  lemma HalfOfSum(b: nat, q: nat)
    ensures (b + 2 * q) / 2 == b / 2 + q && (b + 2 * q) % 2 == b % 2
  {
    assert b + 2 * q == 2 * (b / 2 + q) + b % 2;
  }

  lemma HalvedByte(b: byte, rest: nat)
    ensures Halved(b + 256 * rest, 8) == rest
    ensures forall t: nat :: t < 8 ==> Halved(b + 256 * rest, t) % 2 == Halved(b, t) % 2
  {
    hide Halved, Pow2;
    var x := b + 256 * rest;
    HalvedFour(x, 4);
    HalvedFour(x / 16, 0);
    HalvedNone(x / 16 / 16);
    assert x / 16 / 16 == x / 256 == rest;
    Pow2Eight();
    forall t: nat | t < 8
      ensures Halved(x, t) % 2 == Halved(b, t) % 2
    {
      LowBit(b, 8, rest, t);
    }
  }

  lemma HalvedNone(x: nat)
    ensures Halved(x, 0) == x
  {
  }

  lemma Pow2Eight()
    ensures Pow2(8) == 256
  {
    assert Pow2(2) == 4 && Pow2(4) == 16 && Pow2(6) == 64;
  }

  /** Bit `t` of byte `i` is bit 8 * i + t of the word. */
  lemma LittleBit(m: seq<byte>, at: nat, i: nat, t: nat)
    requires at + 4 <= |m| && i < 4 && t < 8
    ensures Halved(Little(m, at), 8 * i + t) % 2 == Halved(m[at + i], t) % 2
  {
    hide Halved;
    var b3 := m[at + 3] as nat;
    var b2 := m[at + 2] + 256 * b3;
    var b1 := m[at + 1] + 256 * b2;
    assert Little(m, at) == m[at] + 256 * b1;
    HalvedByte(m[at], b1);
    HalvedByte(m[at + 1], b2);
    HalvedByte(m[at + 2], b3);
    HalvedByte(m[at + 3], 0);
    var x := Little(m, at);
    HalvedMore(x, 8, 8);
    HalvedMore(x, 16, 8);
    HalvedMore(x, 8 * i, t);
    HalvedNone(x);
  }

  /** The bitmap in memory: position `n` is bit 31 - n % 32 of word n / 32. */
  lemma BitmapLayout(bits: set<nat>, n: nat)
    requires n < BITMAP_BITS
    ensures Halved(Little(BitmapImage(bits), 4 * (n / 32)), 31 - n % 32) % 2 == 1 <==> n in bits
  {
    hide Halved, ByteOf, Little;
    var b, at, k := BitmapImage(bits), 4 * (n / 32), 31 - n % 32;
    var i, t := k / 8, k % 8;
    LittleBit(b, at, i, t);
    assert 8 * i + t == k;
    assert (at + i) / 4 == n / 32 && (at + i) % 4 == i;
    assert Position(at + i, t) == n;
    ByteRoundTrip((u: nat) => u < 8 && Position(at + i, u) in bits, t);
  }

  // ---------------------------------------------------------- inode table

  function EncodeInode(n: Inode): (bs: seq<byte>)
    requires IsName(n.name) && n.block < WORD_LIMIT && n.size < WORD_LIMIT && n.parent < WORD_LIMIT
    ensures |bs| == INODE_BYTES
  {
    n.name + Zeros(NAME_BYTES - |n.name|) + [n.ftype, 0, 0, 0] + U32(n.block) + U32(n.size) + U32(n.parent)
  }

  function DecodeInode(bs: seq<byte>): Inode
    requires |bs| == INODE_BYTES
  {
    Inode(CStr(bs[0..32]), bs[32], FromU32(bs[36..40]), FromU32(bs[40..44]), FromU32(bs[44..48]))
  }

  lemma InodeRoundTrip(n: Inode)
    requires IsName(n.name) && n.block < WORD_LIMIT && n.size < WORD_LIMIT && n.parent < WORD_LIMIT
    ensures DecodeInode(EncodeInode(n)) == n
  {
    hide U32, FromU32, CStr;
    var bs := EncodeInode(n);
    var pad := Zeros(NAME_BYTES - |n.name|);
    assert bs[0..32] == n.name + [0] + pad[1..];
    CStrOf(n.name, pad[1..]);
    assert bs[36..40] == U32(n.block) && bs[40..44] == U32(n.size) && bs[44..48] == U32(n.parent);
    U32RoundTrip(n.block);
    U32RoundTrip(n.size);
    U32RoundTrip(n.parent);
  }

  ghost predicate Encodable(ns: seq<Inode>) {
    forall i: nat :: i < |ns| ==>
      IsName(ns[i].name) && ns[i].block < WORD_LIMIT && ns[i].size < WORD_LIMIT && ns[i].parent < WORD_LIMIT
  }

  function TableBytes(ns: seq<Inode>): (bs: seq<byte>)
    requires Encodable(ns)
    ensures |bs| == INODE_BYTES * |ns|
  {
    if ns == [] then [] else TableBytes(ns[..|ns| - 1]) + EncodeInode(ns[|ns| - 1])
  }

  lemma {:induction false} TableBytesAt(ns: seq<Inode>, i: nat)
    requires Encodable(ns) && i < |ns|
    ensures TableBytes(ns)[INODE_BYTES * i..INODE_BYTES * i + INODE_BYTES] == EncodeInode(ns[i])
  {
    hide EncodeInode;
    if i < |ns| - 1 {
      var init := ns[..|ns| - 1];
      TableBytesAt(init, i);
      assert TableBytes(ns)[INODE_BYTES * i..INODE_BYTES * i + INODE_BYTES]
          == TableBytes(init)[INODE_BYTES * i..INODE_BYTES * i + INODE_BYTES];
    }
  }

  /** The five blocks the table occupies, as one stretch of bytes. */
  function TableImage(ns: seq<Inode>): (bs: seq<byte>)
    requires |ns| == INODES && Encodable(ns)
    ensures |bs| == TABLE_BLOCKS * BLOCK_BYTES
  {
    TableBytes(ns) + Zeros(TABLE_BLOCKS * BLOCK_BYTES - INODE_BYTES * INODES)
  }

  function DecodeTable(bs: seq<byte>): (ns: seq<Inode>)
    requires |bs| == TABLE_BLOCKS * BLOCK_BYTES
    ensures |ns| == INODES
  {
    seq(INODES, i requires 0 <= i < INODES => DecodeInode(bs[INODE_BYTES * i..INODE_BYTES * i + INODE_BYTES]))
  }

  lemma TableRoundTrip(ns: seq<Inode>)
    requires |ns| == INODES && Encodable(ns)
    ensures DecodeTable(TableImage(ns)) == ns
  {
    hide EncodeInode, DecodeInode, TableBytes;
    forall i: nat | i < INODES
      ensures DecodeTable(TableImage(ns))[i] == ns[i]
    {
      TableBytesAt(ns, i);
      assert TableImage(ns)[INODE_BYTES * i..INODE_BYTES * i + INODE_BYTES]
          == TableBytes(ns)[INODE_BYTES * i..INODE_BYTES * i + INODE_BYTES];
      InodeRoundTrip(ns[i]);
    }
  }

  lemma InodeLayout(n: Inode)
    requires IsName(n.name) && n.block < WORD_LIMIT && n.size < WORD_LIMIT && n.parent < WORD_LIMIT
    ensures var bs := EncodeInode(n);
            && bs[..|n.name| + 1] == n.name + [0] && bs[32] == n.ftype
            && Little(bs, 36) == n.block && Little(bs, 40) == n.size && Little(bs, 44) == n.parent
  {
    hide U32, Little;
    var bs := EncodeInode(n);
    assert bs[36..40] == U32(n.block) && bs[40..44] == U32(n.size) && bs[44..48] == U32(n.parent);
    LittleAt(bs, 36, n.block);
    LittleAt(bs, 40, n.size);
    LittleAt(bs, 44, n.parent);
  }

  /** The inode table in memory: 48 bytes an inode, its fields at their offsets. */
  lemma TableLayout(ns: seq<Inode>, i: nat)
    requires |ns| == INODES && Encodable(ns) && i < INODES
    ensures var t, n := TableImage(ns), ns[i];
            && t[48 * i..48 * i + |n.name| + 1] == n.name + [0] && t[48 * i + 32] == n.ftype
            && Little(t, 48 * i + 36) == n.block && Little(t, 48 * i + 40) == n.size
            && Little(t, 48 * i + 44) == n.parent
  {
    hide EncodeInode, TableBytes;
    TableBytesAt(ns, i);
    InodeLayout(ns[i]);
    var t, bs := TableImage(ns), EncodeInode(ns[i]);
    assert t[48 * i..48 * i + 48] == bs;
    forall j | 0 <= j < 48
      ensures t[48 * i + j] == bs[j]
    {
      assert t[48 * i + j] == t[48 * i..48 * i + 48][j];
    }
    assert t[48 * i..48 * i + |ns[i].name| + 1] == bs[..|ns[i].name| + 1];
  }

  /** Cutting bytes into blocks and reading the blocks one after the other. */
  function Piece(bs: seq<byte>, j: nat): Block
    requires |bs| == TABLE_BLOCKS * BLOCK_BYTES && j < TABLE_BLOCKS
  {
    bs[BLOCK_BYTES * j..BLOCK_BYTES * (j + 1)]
  }

  function Joined(a: Block, b: Block, c: Block, d: Block, e: Block): (bs: seq<byte>)
    ensures |bs| == TABLE_BLOCKS * BLOCK_BYTES
  {
    var x: seq<byte> := a;
    x + b + c + d + e
  }

  lemma PiecesJoin(bs: seq<byte>)
    requires |bs| == TABLE_BLOCKS * BLOCK_BYTES
    ensures Joined(Piece(bs, 0), Piece(bs, 1), Piece(bs, 2), Piece(bs, 3), Piece(bs, 4)) == bs
  {
  }

  // ---------------------------------------------------------- super block

  ghost predicate SuperEncodable(s: Super) {
    && |s.indicator| < INDICATOR_BYTES && 0 !in s.indicator
    && s.diskSize < WORD_LIMIT * WORD_LIMIT && s.sectorCount < WORD_LIMIT && s.blockCount < WORD_LIMIT
    && s.iBmapStart < WORD_LIMIT && s.dBmapStart < WORD_LIMIT && s.inodeTableStart < WORD_LIMIT
    && s.usedInodes < WORD_LIMIT && s.dataStart < WORD_LIMIT
  }

  function SuperImage(s: Super): (b: Block)
    requires SuperEncodable(s)
  {
    s.indicator + Zeros(INDICATOR_BYTES - |s.indicator|)
    + U32(s.diskSize % WORD_LIMIT) + U32(s.diskSize / WORD_LIMIT) + U32(s.sectorCount) + U32(s.blockCount)
    + U32(s.iBmapStart) + U32(s.dBmapStart) + U32(s.inodeTableStart) + U32(s.usedInodes) + U32(s.dataStart)
    + Zeros(BLOCK_BYTES - SUPER_BYTES)
  }

  function DecodeSuper(b: Block): Super {
    Super(CStr(b[0..16]), FromU32(b[16..20]) + WORD_LIMIT * FromU32(b[20..24]), FromU32(b[24..28]), FromU32(b[28..32]),
          FromU32(b[32..36]), FromU32(b[36..40]), FromU32(b[40..44]), FromU32(b[44..48]), FromU32(b[48..52]))
  }

  /** The super block in memory: the indicator, and words at their offsets. */
  lemma SuperLayout(s: Super)
    requires SuperEncodable(s)
    ensures var b := SuperImage(s);
            && b[..|s.indicator| + 1] == s.indicator + [0]
            && Little(b, 16) + 0x1_0000_0000 * Little(b, 20) == s.diskSize
            && Little(b, 24) == s.sectorCount && Little(b, 28) == s.blockCount && Little(b, 32) == s.iBmapStart
            && Little(b, 36) == s.dBmapStart && Little(b, 40) == s.inodeTableStart && Little(b, 44) == s.usedInodes
            && Little(b, 48) == s.dataStart
  {
    hide U32, Little;
    var b := SuperImage(s);
    assert b[16..20] == U32(s.diskSize % WORD_LIMIT) && b[20..24] == U32(s.diskSize / WORD_LIMIT);
    assert b[24..28] == U32(s.sectorCount) && b[28..32] == U32(s.blockCount) && b[32..36] == U32(s.iBmapStart);
    assert b[36..40] == U32(s.dBmapStart) && b[40..44] == U32(s.inodeTableStart);
    assert b[44..48] == U32(s.usedInodes) && b[48..52] == U32(s.dataStart);
    LittleAt(b, 16, s.diskSize % WORD_LIMIT);
    LittleAt(b, 20, s.diskSize / WORD_LIMIT);
    LittleAt(b, 24, s.sectorCount);
    LittleAt(b, 28, s.blockCount);
    LittleAt(b, 32, s.iBmapStart);
    LittleAt(b, 36, s.dBmapStart);
    LittleAt(b, 40, s.inodeTableStart);
    LittleAt(b, 44, s.usedInodes);
    LittleAt(b, 48, s.dataStart);
  }

  lemma SuperRoundTrip(s: Super)
    requires SuperEncodable(s)
    ensures DecodeSuper(SuperImage(s)) == s
  {
    hide U32, FromU32, CStr;
    var b := SuperImage(s);
    var pad := Zeros(INDICATOR_BYTES - |s.indicator|);
    assert b[0..16] == s.indicator + [0] + pad[1..];
    CStrOf(s.indicator, pad[1..]);
    assert b[16..20] == U32(s.diskSize % WORD_LIMIT) && b[20..24] == U32(s.diskSize / WORD_LIMIT);
    assert b[24..28] == U32(s.sectorCount) && b[28..32] == U32(s.blockCount) && b[32..36] == U32(s.iBmapStart);
    assert b[36..40] == U32(s.dBmapStart) && b[40..44] == U32(s.inodeTableStart);
    assert b[44..48] == U32(s.usedInodes) && b[48..52] == U32(s.dataStart);
    U32RoundTrip(s.diskSize % WORD_LIMIT);
    U32RoundTrip(s.diskSize / WORD_LIMIT);
    U32RoundTrip(s.sectorCount);
    U32RoundTrip(s.blockCount);
    U32RoundTrip(s.iBmapStart);
    U32RoundTrip(s.dBmapStart);
    U32RoundTrip(s.inodeTableStart);
    U32RoundTrip(s.usedInodes);
    U32RoundTrip(s.dataStart);
  }
}
