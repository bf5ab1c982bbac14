/** 32-bit words and the masks that src/util.c builds from shifted ones.

    Bit positions are counted from the most significant end, as the bitmaps do.
    Every mask is a `bv32` value with wrap-around; the lemmas say which bits it has. */
module Words {

  /** `1 << k` in 32 bits: zero once the one has been shifted out. */
  function One(k: nat): bv32 {
    if k == 0 then 1 else One(k - 1) << 1
  }

  /** The test `word & (1 << bit)` of the original, for MSB-first position `b`. */
  predicate Bit(w: bv32, b: nat)
    requires b < 32
  {
    w & One(31 - b) != 0
  }

  // ---------------------------------------------------------------- masks

  lemma OneTop()
    ensures One(31) == 0x8000_0000
  {
    assert One(0) == 1; assert One(1) == 2; assert One(2) == 4; assert One(3) == 8;
    assert One(4) == 0x10; assert One(5) == 0x20; assert One(6) == 0x40; assert One(7) == 0x80;
    assert One(8) == 0x100; assert One(9) == 0x200; assert One(10) == 0x400; assert One(11) == 0x800;
    assert One(12) == 0x1000; assert One(13) == 0x2000; assert One(14) == 0x4000; assert One(15) == 0x8000;
    assert One(16) == 0x1_0000; assert One(17) == 0x2_0000; assert One(18) == 0x4_0000; assert One(19) == 0x8_0000;
    assert One(20) == 0x10_0000; assert One(21) == 0x20_0000; assert One(22) == 0x40_0000; assert One(23) == 0x80_0000;
    assert One(24) == 0x100_0000; assert One(25) == 0x200_0000; assert One(26) == 0x400_0000;
    assert One(27) == 0x800_0000;
    assert One(28) == 0x1000_0000; assert One(29) == 0x2000_0000; assert One(30) == 0x4000_0000;
  }

  /** `1 << k` is a single bit for every `k` below 32. */
  lemma {:induction false} OneNonzero(k: nat)
    requires k <= 31
    ensures One(k) != 0
    decreases 31 - k
  {
    if k == 31 {
      OneTop();
    } else {
      OneNonzero(k + 1);
    }
  }

  lemma PowerDoubles(m: bv32)
    requires m & (m - 1) == 0
    ensures (m << 1) & ((m << 1) - 1) == 0
  {
  }

  lemma {:induction false} OneIsPower(k: nat)
    ensures One(k) & (One(k) - 1) == 0
  {
    if k > 0 {
      OneIsPower(k - 1);
      PowerDoubles(One(k - 1));
    }
  }

  lemma ShiftAnd(x: bv32, y: bv32)
    ensures (x << 1) & (y << 1) == (x & y) << 1
  {
  }

  lemma ShiftAndOne(x: bv32)
    ensures 1 & (x << 1) == 0 && (x << 1) & 1 == 0
  {
  }

  lemma {:induction false} OneDistinct(a: nat, b: nat)
    requires a != b
    ensures One(a) & One(b) == 0
  {
    if a == 0 {
      ShiftAndOne(One(b - 1));
    } else if b == 0 {
      ShiftAndOne(One(a - 1));
    } else {
      OneDistinct(a - 1, b - 1);
      ShiftAnd(One(a - 1), One(b - 1));
    }
  }

  lemma AndSelf(x: bv32)
    ensures x & x == x
  {
  }

  /** `1 << k`, as a word, has its one set bit at position `31 - k`. */
  lemma BitOne(k: nat, b: nat)
    requires k < 32 && b < 32
    ensures Bit(One(k), b) <==> k == 31 - b
  {
    if k == 31 - b {
      OneNonzero(k);
      AndSelf(One(k));
    } else {
      OneDistinct(k, 31 - b);
    }
  }

  lemma AndNotAnd(x: bv32, y: bv32, m: bv32)
    requires m & (m - 1) == 0
    ensures (x & !y) & m == 0 <==> x & m == 0 || y & m != 0
  {
  }

  lemma XorAnd(x: bv32, y: bv32, m: bv32)
    requires m & (m - 1) == 0
    ensures (x ^ y) & m == 0 <==> (x & m == 0 <==> y & m == 0)
  {
  }

  /** How the word operators act on one bit position. */
  lemma BitAndNot(x: bv32, y: bv32, b: nat)
    requires b < 32
    ensures Bit(x & !y, b) <==> Bit(x, b) && !Bit(y, b)
  {
    OneIsPower(31 - b);
    AndNotAnd(x, y, One(31 - b));
  }

  lemma BitXor(x: bv32, y: bv32, b: nat)
    requires b < 32
    ensures Bit(x ^ y, b) <==> Bit(x, b) != Bit(y, b)
  {
    OneIsPower(31 - b);
    XorAnd(x, y, One(31 - b));
  }

  lemma OrAsXor(x: bv32, y: bv32)
    ensures x | y == x ^ (y & !x)
  {
  }

  lemma BitOr(x: bv32, y: bv32, b: nat)
    requires b < 32
    ensures Bit(x | y, b) <==> Bit(x, b) || Bit(y, b)
  {
    OrAsXor(x, y);
    BitXor(x, y & !x, b);
    BitAndNot(y, x, b);
  }

  lemma NotAsXor(y: bv32)
    ensures !y == 0xFFFF_FFFF ^ y
  {
  }

  lemma ConstantMasks(m: bv32)
    ensures 0 & m == 0
    ensures 0xFFFF_FFFF & m == m
  {
  }

  lemma BitConstants(b: nat)
    requires b < 32
    ensures !Bit(0, b) && Bit(0xFFFF_FFFF, b)
  {
    ConstantMasks(One(31 - b));
    OneNonzero(31 - b);
  }

  lemma MaskGrows(m: bv32)
    requires m & (m - 1) == 0
    ensures (m << 1) - 1 == (m - 1) ^ m
  {
  }

  function LowOnes(s: nat): bv32
    requires s <= 32
  {
    One(32 - s) - 1
  }

  lemma LowOnesStep(s: nat)
    requires s < 32
    ensures LowOnes(s) == LowOnes(s + 1) ^ One(31 - s)
  {
    OneIsPower(31 - s);
    MaskGrows(One(31 - s));
  }

  /** `(1 << (32 - s)) - 1` has exactly the bits from position `s` on. */
  lemma {:induction false} BitLowOnes(s: nat, b: nat)
    requires s <= 32 && b < 32
    ensures Bit(LowOnes(s), b) <==> s <= b
    decreases 32 - s
  {
    if s == 32 {
      BitConstants(b);
    } else {
      BitLowOnes(s + 1, b);
      BitOne(31 - s, b);
      LowOnesStep(s);
      BitXor(LowOnes(s + 1), One(31 - s), b);
    }
  }
}
