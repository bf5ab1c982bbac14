/** Bitmaps of words as the bytes of a block, and back: what writing the memory of a bitmap
    array to the disk, and reading it into one, does to the set of its bits. */
module WordImages {
  import opened Memory
  import opened Words
  import opened Bitmap
  import opened Layout
  import opened FsState
  import opened Images

  const BITMAP_WORDS: nat := 1024

  /** The word whose bits from the least significant end are f(0), ..., f(k - 1). */
  function WordOf(f: nat -> bool, k: nat): bv32 {
    if k == 0 then 0 else WithBit(WordOf(f, k - 1), f(k - 1), k - 1)
  }

  function WithBit(w: bv32, on: bool, k: nat): bv32 {
    if on then w | One(k) else w
  }

  lemma BitWithBit(w: bv32, on: bool, k: nat, b: nat)
    requires k < 32 && b < 32
    ensures Bit(WithBit(w, on, k), b) <==> Bit(w, b) || (on && b == 31 - k)
  {
    hide One, Bit;
    if on {
      var m := One(k);
      BitOne(k, b);
      BitOr(w, m, b);
    }
  }

  lemma {:induction false} BitWordOf(f: nat -> bool, k: nat, b: nat)
    requires k <= 32 && b < 32
    ensures Bit(WordOf(f, k), b) <==> 31 - b < k && f(31 - b)
  {
    hide Bit, WithBit;
    BitConstants(b);
    if k > 0 {
      BitWordOf(f, k - 1, b);
      BitWithBit(WordOf(f, k - 1), f(k - 1), k - 1, b);
    }
  }

  /** Word `w` of a block of bytes. */
  function WordAt(block: Block, w: nat): bv32
    requires w < BITMAP_WORDS
  {
    WordOf(k => 0 <= k < 32 && TestBit(block[4 * w + k / 8], k % 8), 32)
  }

  lemma WordAtBits(block: Block, w: nat, b: nat)
    requires w < BITMAP_WORDS && b < 32
    ensures Bit(WordAt(block, w), b) <==> ImageHas(block, 32 * w + b)
  {
    hide TestBit, WordOf, Bit;
    var n := 32 * w + b;
    assert n / 32 == w && n % 32 == b;
    assert ByteIndex(n) == 4 * w + (31 - b) / 8 && BitIndex(n) == (31 - b) % 8;
    BitWordOf(k => 0 <= k < 32 && TestBit(block[4 * w + k / 8], k % 8), 32, b);
  }

  /** Reading a bitmap block into the array. */
  method LoadBitmap(bitmap: array<bv32>, block: Block)
    requires bitmap.Length == BITMAP_WORDS
    modifies bitmap
    ensures BitsOf(bitmap[..]) == ImageBits(block)
  {
    var w := 0;
    while w < BITMAP_WORDS
      invariant w <= BITMAP_WORDS
      invariant forall v: nat :: v < w ==> bitmap[v] == WordAt(block, v)
    {
      bitmap[w] := WordAt(block, w);
      w := w + 1;
    }
    LoadedBits(bitmap[..], block);
  }

  lemma LoadedBits(ws: seq<bv32>, block: Block)
    requires |ws| == BITMAP_WORDS && forall v: nat :: v < |ws| ==> ws[v] == WordAt(block, v)
    ensures BitsOf(ws) == ImageBits(block)
  {
    hide ImageHas, WordAt, Bit;
    forall n: nat | n < BITMAP_BITS
      ensures n in BitsOf(ws) <==> ImageHas(block, n)
    {
      WordAtBits(block, n / 32, n % 32);
      MemberBit(ws, n / 32, n % 32);
    }
  }

  function WordByte(w: bv32, i: nat): byte
    requires i < 4
  {
    ByteOf((t: nat) => t < 8 && Bit(w, 31 - 8 * i - t))
  }

  /** The memory of a bitmap array. */
  function WordsImage(ws: seq<bv32>): Block
    requires |ws| == BITMAP_WORDS
  {
    seq(BLOCK_BYTES, j requires 0 <= j < BLOCK_BYTES => WordByte(ws[j / 4], j % 4))
  }

  lemma {:induction false} BitsFromEqual(f: nat -> bool, g: nat -> bool, t: nat)
    requires t <= 8 && forall u: nat :: u < 8 ==> f(u) == g(u)
    ensures BitsFrom(f, t) == BitsFrom(g, t)
    decreases 8 - t
  {
    if t < 8 {
      BitsFromEqual(f, g, t + 1);
    }
  }

  lemma WordsImageIs(ws: seq<bv32>)
    requires |ws| == BITMAP_WORDS
    ensures WordsImage(ws) == BitmapImage(BitsOf(ws))
  {
    hide WordByte, ImageByte, BitsOf;
    forall j: nat | j < BLOCK_BYTES
      ensures WordsImage(ws)[j] == BitmapImage(BitsOf(ws))[j]
    {
      WordByteIs(ws, j);
    }
  }

  lemma WordByteIs(ws: seq<bv32>, j: nat)
    requires |ws| == BITMAP_WORDS && j < BLOCK_BYTES
    ensures WordByte(ws[j / 4], j % 4) == ImageByte(BitsOf(ws), j)
  {
    hide BitsFrom, Bit, BitsOf;
    var bits, w, i := BitsOf(ws), j / 4, j % 4;
    var f := (t: nat) => t < 8 && Bit(ws[w], 31 - 8 * i - t);
    var g := (t: nat) => t < 8 && Position(j, t) in bits;
    forall u: nat | u < 8
      ensures f(u) == g(u)
    {
      MemberBit(ws, w, 31 - 8 * i - u);
    }
    BitsFromEqual(f, g, 0);
  }
}
