/** Bit ranges in arrays of 32-bit words (src/util.c).

    Bit `i` of a bitmap is bit `i % 32` of word `i / 32`, counted from the most
    significant end.  The abstract value of a bitmap is the set of positions whose
    bit is set; applying a range adds or removes an interval, and the one-pass scan
    finds the first free run. */
module Bitmap {
  import opened Words

  datatype BitRange = BitRange(start: nat, length: nat)

  predicate Has(ws: seq<bv32>, i: nat)
    requires i < 32 * |ws|
  {
    Bit(ws[i / 32], i % 32)
  }

  /** The abstract value of a bitmap. */
  ghost function BitsOf(ws: seq<bv32>): set<nat> {
    set i: nat | i < 32 * |ws| && Has(ws, i)
  }

  predicate Inside(start: nat, length: nat, i: nat) {
    start <= i < start + length
  }

  ghost function Span(start: nat, length: nat): (s: set<nat>)
    ensures forall i: nat :: i in s <==> Inside(start, length, i)
  {
    set i: nat | start <= i < start + length && Inside(start, length, i)
  }

  // ------------------------------------------------------- applying a range

  /** `coeff` has exactly the bits of word `w` that lie in the range. */
  ghost predicate Covers(coeff: bv32, w: nat, start: nat, length: nat) {
    forall b: nat :: b < 32 ==> (Bit(coeff, b) <==> Inside(start, length, 32 * w + b))
  }

  /** `now` is `was` with the bits of word `w` that lie in the range set or cleared. */
  ghost predicate WordApplied(was: bv32, now: bv32, w: nat, start: nat, length: nat, set_: bool) {
    forall b: nat :: b < 32 ==>
      (Bit(now, b) <==> if Inside(start, length, 32 * w + b) then set_ else Bit(was, b))
  }

  function Combine(was: bv32, coeff: bv32, set_: bool): bv32 {
    if set_ then was | coeff else was & !coeff
  }

  lemma BitCombine(was: bv32, coeff: bv32, set_: bool, b: nat)
    requires b < 32
    ensures Bit(Combine(was, coeff, set_), b) <==> if Bit(coeff, b) then set_ else Bit(was, b)
  {
    if set_ {
      BitOr(was, coeff, b);
    } else {
      BitAndNot(was, coeff, b);
    }
  }

  lemma CombineApplies(was: bv32, coeff: bv32, w: nat, start: nat, length: nat, set_: bool)
    requires Covers(coeff, w, start, length)
    ensures WordApplied(was, Combine(was, coeff, set_), w, start, length, set_)
  {
    var now := Combine(was, coeff, set_);
    forall b: nat | b < 32
      ensures Bit(now, b) <==> if Inside(start, length, 32 * w + b) then set_ else Bit(was, b)
    {
      BitCombine(was, coeff, set_, b);
    }
  }

  /** The mask of a range that starts and ends in one word. */
  function SameWordMask(startBit: nat, endBit: nat): bv32
    requires startBit < 32 && endBit < 32
  {
    (if startBit != 0 then LowOnes(startBit) else 0xFFFF_FFFF) ^ LowOnes(endBit)
  }

  /** The masks of the first, last and inner words of a longer range. */
  function SpreadMask(startBit: nat, endBit: nat, first: bool, last: bool): bv32
    requires startBit < 32 && endBit < 32
  {
    if first then (if startBit != 0 then LowOnes(startBit) else 0xFFFF_FFFF)
    else if last then (if endBit != 0 then !LowOnes(endBit) else 0)
    else 0xFFFF_FFFF
  }

  lemma SameWordMaskCovers(start: nat, length: nat)
    requires start / 32 == (start + length) / 32
    ensures Covers(SameWordMask(start % 32, (start + length) % 32), start / 32, start, length)
  {
    var s, e := start % 32, (start + length) % 32;
    forall b: nat | b < 32
      ensures Bit(SameWordMask(s, e), b) <==> Inside(start, length, 32 * (start / 32) + b)
    {
      BitLowOnes(s, b);
      BitLowOnes(e, b);
      BitConstants(b);
      BitXor(if s != 0 then LowOnes(s) else 0xFFFF_FFFF, LowOnes(e), b);
    }
  }

  lemma NotBit(y: bv32, b: nat)
    requires b < 32
    ensures Bit(!y, b) <==> !Bit(y, b)
  {
    BitConstants(b);
    BitXor(0xFFFF_FFFF, y, b);
    NotAsXor(y);
  }

  lemma SpreadMaskCovers(start: nat, length: nat, w: nat)
    requires start / 32 < (start + length) / 32
    requires start / 32 <= w <= (start + length) / 32
    ensures Covers(SpreadMask(start % 32, (start + length) % 32, w == start / 32, w == (start + length) / 32),
                   w, start, length)
  {
    var s, e := start % 32, (start + length) % 32;
    var coeff := SpreadMask(s, e, w == start / 32, w == (start + length) / 32);
    forall b: nat | b < 32
      ensures Bit(coeff, b) <==> Inside(start, length, 32 * w + b)
    {
      BitLowOnes(s, b);
      BitLowOnes(e, b);
      BitConstants(b);
      NotBit(LowOnes(e), b);
    }
  }

  /** The 16-bit word counter of the original, after `n` words. */
  function Counter(startWord: nat, n: nat): nat {
    (startWord + n) % 0x1_0000
  }

  /** The loop over the words ends: it leaves by its break, or the counter can pass the last
      word. */
  predicate CounterEnds(start: nat, length: nat) {
    start / 32 == (start + length) / 32 || (start + length) / 32 < 0xFFFF
  }

  /** Where the range is applied: the counter starts at the first word modulo 2^16. */
  function CounterStart(start: nat): nat {
    32 * Counter(start / 32, 0) + start % 32
  }

  /** The counter reaches the last word and stops there. */
  predicate FitsCounter(start: nat, length: nat) {
    var startWord, endWord := start / 32, (start + length) / 32;
    endWord < 0xFFFF || (startWord == endWord && endWord == 0xFFFF)
  }

  /** The words the loop goes through: `first` to `last`, and no further than asked. */
  lemma CounterRange(start: nat, length: nat) returns (first: nat, last: nat)
    requires CounterEnds(start, length)
    ensures first == start / 32 % 0x1_0000 && CounterStart(start) == 32 * first + start % 32
    ensures CounterStart(start) + length == 32 * last + (start + length) % 32
    ensures first <= start / 32 && last <= (start + length) / 32
    ensures if start / 32 == (start + length) / 32 then first == last
            else first == start / 32 < last == (start + length) / 32 < 0xFFFF
  {
    first := Counter(start / 32, 0);
    last := if start / 32 == (start + length) / 32 then first else (start + length) / 32;
  }

  lemma SameWordApplies(was: bv32, w: nat, startBit: nat, endBit: nat, length: nat, set_: bool)
    requires startBit < 32 && endBit < 32 && startBit + length == endBit
    ensures WordApplied(was, Combine(was, SameWordMask(startBit, endBit), set_), w, 32 * w + startBit, length, set_)
  {
    hide WordApplied, Combine, Covers, SameWordMask;
    var start := 32 * w + startBit;
    assert start / 32 == w && start % 32 == startBit && (start + length) / 32 == w && (start + length) % 32 == endBit;
    SameWordMaskCovers(start, length);
    CombineApplies(was, SameWordMask(startBit, endBit), w, start, length, set_);
  }

  lemma SpreadApplies(was: bv32, w: nat, first: nat, last: nat, startBit: nat, endBit: nat, length: nat, set_: bool)
    requires startBit < 32 && endBit < 32 && first < last && first <= w <= last
    requires 32 * first + startBit + length == 32 * last + endBit
    ensures WordApplied(was, Combine(was, SpreadMask(startBit, endBit, w == first, w == last), set_),
                        w, 32 * first + startBit, length, set_)
  {
    hide WordApplied, Combine, Covers, SpreadMask;
    var start := 32 * first + startBit;
    assert start / 32 == first && start % 32 == startBit && (start + length) / 32 == last
           && (start + length) % 32 == endBit;
    SpreadMaskCovers(start, length, w);
    CombineApplies(was, SpreadMask(startBit, endBit, w == first, w == last), w, start, length, set_);
  }

  /** Beyond that, the loop starts at a wrong word or never ends. */
  lemma FitsCounterIff(start: nat, length: nat)
    ensures FitsCounter(start, length) <==> CounterEnds(start, length) && CounterStart(start) == start
    ensures CounterEnds(start, length) <==>
            start / 32 == (start + length) / 32 || exists n: nat :: Counter(start / 32, n) > (start + length) / 32
  {
    var w, last := start / 32, (start + length) / 32;
    if last < 0xFFFF {
      assert Counter(w, 0xFFFF - w) == 0xFFFF;
    }
  }

  ghost predicate RangeApplied(was: seq<bv32>, now: seq<bv32>, start: nat, length: nat, set_: bool) {
    && |was| == |now|
    && forall i: nat :: i < 32 * |was| ==>
         (Has(now, i) <==> if Inside(start, length, i) then set_ else Has(was, i))
  }

  lemma FromWords(was: seq<bv32>, now: seq<bv32>, start: nat, length: nat, set_: bool)
    requires |was| == |now|
    requires forall w: nat :: w < |was| ==> WordApplied(was[w], now[w], w, start, length, set_)
    ensures RangeApplied(was, now, start, length, set_)
  {
    forall i: nat | i < 32 * |was|
      ensures Has(now, i) <==> if Inside(start, length, i) then set_ else Has(was, i)
    {
      var w := i / 32;
      assert WordApplied(was[w], now[w], w, start, length, set_);
      assert 32 * w + i % 32 == i;
    }
  }

  lemma Untouched(word: bv32, w: nat, first: nat, last: nat, startBit: nat, endBit: nat, length: nat, set_: bool)
    requires w < first || last < w
    requires startBit < 32 && endBit < 32 && 32 * first + startBit + length == 32 * last + endBit
    ensures WordApplied(word, word, w, 32 * first + startBit, length, set_)
  {
  }

  lemma NothingApplied(words: seq<bv32>, set_: bool)
    ensures RangeApplied(words, words, CounterStart(0), 0, set_)
  {
  }

  /** `apply_bitrange`.  The word holding the exclusive end is visited with an empty
      mask when the range ends on a word boundary; past the end of the array that
      visit rewrites the neighbouring word with its own value and is skipped here. */
  method ApplyBitRange(bitmap: array<bv32>, range: BitRange, set_: bool)
    requires range.start + range.length <= 32 * bitmap.Length
    requires range.length > 0 || range.start == 0 || range.start % 32 != 0
    requires CounterEnds(range.start, range.length)
    modifies bitmap
    ensures RangeApplied(old(bitmap[..]), bitmap[..], CounterStart(range.start), range.length, set_)
  {
    hide WordApplied, Covers, Combine, SameWordMask, SpreadMask, RangeApplied, CounterStart;
    if range.length == 0 && range.start == 0 {
      NothingApplied(bitmap[..], set_);
      return;
    }
    ghost var was := bitmap[..];
    ghost var start, length := CounterStart(range.start), range.length;
    var startWord, startBit := range.start / 32, range.start % 32;
    var endWord, endBit := (range.start + range.length) / 32, (range.start + range.length) % 32;
    ghost var first, last := CounterRange(range.start, range.length);
    var word := startWord % 0x1_0000;
    while word <= endWord
      invariant first <= word <= last + 1
      invariant startWord == endWord ==> word == first
      invariant forall w: nat :: w < bitmap.Length && first <= w < word ==>
                  WordApplied(was[w], bitmap[w], w, start, length, set_)
      invariant forall w: nat :: w < bitmap.Length && (w < first || word <= w) ==> bitmap[w] == was[w]
    {
      if startWord == endWord {
        var coeff := SameWordMask(startBit, endBit);
        SameWordApplies(was[word], word, startBit, endBit, length, set_);
        bitmap[word] := Combine(bitmap[word], coeff, set_);
        break;
      }
      var coeff := SpreadMask(startBit, endBit, word == startWord, word == endWord);
      if word < bitmap.Length {
        SpreadApplies(was[word], word, first, last, startBit, endBit, length, set_);
        bitmap[word] := Combine(bitmap[word], coeff, set_);
      }
      word := (word + 1) % 0x1_0000;
    }
    forall w: nat | w < bitmap.Length
      ensures WordApplied(was[w], bitmap[..][w], w, start, length, set_)
    {
      if w < first || last < w {
        Untouched(was[w], w, first, last, startBit, endBit, length, set_);
      }
    }
    FromWords(was, bitmap[..], start, length, set_);
  }

  /** What applying a range means for the abstract value. */
  lemma AppliedBits(was: seq<bv32>, now: seq<bv32>, start: nat, length: nat, set_: bool)
    requires RangeApplied(was, now, start, length, set_)
    requires start + length <= 32 * |was|
    ensures BitsOf(now) == if set_ then BitsOf(was) + Span(start, length) else BitsOf(was) - Span(start, length)
  {
    var target := if set_ then BitsOf(was) + Span(start, length) else BitsOf(was) - Span(start, length);
    forall i: nat
      ensures i in BitsOf(now) <==> i in target
    {
      assert i < 32 * |was| ==> (Has(now, i) <==> if Inside(start, length, i) then set_ else Has(was, i));
    }
  }

  // ------------------------------------------------------------ first fit

  predicate Candidate(aligned: bool, s: nat) {
    aligned ==> s % 4 == 0
  }

  ghost predicate Clear(bits: set<nat>, s: nat, count: nat) {
    forall i: nat :: Inside(s, count, i) ==> i !in bits
  }

  /** A run of `count` clear bits at `s`, within the first `limit` positions. */
  ghost predicate Fits(bits: set<nat>, limit: nat, count: nat, aligned: bool, s: nat) {
    s + count <= limit && Candidate(aligned, s) && Clear(bits, s, count)
  }

  ghost predicate IsFirstFit(bits: set<nat>, limit: nat, count: nat, aligned: bool, s: nat) {
    && Fits(bits, limit, count, aligned, s)
    && forall t: nat :: t < s ==> !Fits(bits, limit, count, aligned, t)
  }

  ghost predicate NoFit(bits: set<nat>, limit: nat, count: nat, aligned: bool) {
    forall t: nat :: !Fits(bits, limit, count, aligned, t)
  }

  /** The least position that is not in the set. */
  ghost function FirstClear(bits: set<nat>): (r: nat)
    ensures r !in bits && forall i: nat :: i < r ==> i in bits
  {
    FirstClearFrom(bits, 0)
  }

  ghost function FirstClearFrom(bits: set<nat>, i: nat): (r: nat)
    requires forall j: nat :: j < i ==> j in bits
    ensures r !in bits && forall j: nat :: j < r ==> j in bits
    decreases bits - Span(0, i)
  {
    if i !in bits then i
    else
      assert i in bits - Span(0, i) && i !in bits - Span(0, i + 1);
      FirstClearFrom(bits, i + 1)
  }

  lemma {:induction false} SpanSize(n: nat)
    ensures |Span(0, n)| == n
  {
    if n == 0 {
      assert Span(0, 0) == {};
    } else {
      SpanSize(n - 1);
      assert Span(0, n) == Span(0, n - 1) + {n - 1};
    }
  }

  lemma {:induction false} SubsetSize<T>(a: set<T>, b: set<T>)
    requires a <= b
    ensures |a| <= |b|
  {
    if a != {} {
      var x :| x in a;
      SubsetSize(a - {x}, b - {x});
    }
  }

  lemma FirstClearBound(bits: set<nat>)
    ensures FirstClear(bits) <= |bits|
  {
    var r := FirstClear(bits);
    SpanSize(r);
    forall i: nat | i in Span(0, r)
      ensures i in bits
    {
      assert Inside(0, r, i);
    }
    SubsetSize(Span(0, r), bits);
  }

  /** First fit of a single bit is the least clear position. */
  lemma FirstFitIsFirstClear(bits: set<nat>, limit: nat, s: nat)
    ensures IsFirstFit(bits, limit, 1, false, s) <==> s == FirstClear(bits) && s < limit
  {
    forall i: nat
      ensures Fits(bits, limit, 1, false, i) <==> i < limit && i !in bits
    {
      assert Inside(i, 1, i);
    }
  }

  lemma FirstFitOfEmpty(limit: nat, count: nat)
    requires count <= limit
    ensures IsFirstFit({}, limit, count, false, 0)
    ensures forall s: nat :: IsFirstFit({}, limit, count, false, s) ==> s == 0
  {
    assert Fits({}, limit, count, false, 0);
  }

  lemma ZeroWords(ws: seq<bv32>)
    requires forall w: nat :: w < |ws| ==> ws[w] == 0
    ensures BitsOf(ws) == {}
  {
  }

  /** The number of bit positions `alloc_bitrange` scans: it divides its capacity by
      the four bytes of a word and looks at that many words. */
  function Scanned(capacity: nat): nat {
    32 * (capacity / 4)
  }

  /** Everything before `start` is ruled out, and `start..pos` is clear but too short. */
  ghost predicate ScanState(bits: set<nat>, limit: nat, count: nat, aligned: bool, start: nat, pos: nat) {
    && start <= pos && pos - start < count && Candidate(aligned, start)
    && Clear(bits, start, pos - start)
    && forall t: nat :: t < start ==> !Fits(bits, limit, count, aligned, t)
  }

  lemma ScanStart(bits: set<nat>, limit: nat, count: nat, aligned: bool)
    requires count > 0
    ensures ScanState(bits, limit, count, aligned, 0, 0)
  {
  }

  lemma ScanClear(bits: set<nat>, limit: nat, count: nat, aligned: bool, start: nat, pos: nat)
    requires ScanState(bits, limit, count, aligned, start, pos)
    requires pos !in bits && pos < limit
    ensures if pos + 1 - start == count then IsFirstFit(bits, limit, count, aligned, start)
            else ScanState(bits, limit, count, aligned, start, pos + 1)
  {
    assert Clear(bits, start, pos + 1 - start) by {
      forall i: nat | Inside(start, pos + 1 - start, i) ensures i !in bits {
        assert i == pos || Inside(start, pos - start, i);
      }
    }
  }

  /** A set bit rules out every start up to the next candidate after it, which the
      aligned scan reaches without looking at the bits it skips. */
  lemma ScanBlocked(bits: set<nat>, limit: nat, count: nat, aligned: bool, start: nat, pos: nat, next: nat)
    requires ScanState(bits, limit, count, aligned, start, pos)
    requires pos in bits && pos < next && Candidate(aligned, next)
    requires forall t: nat :: pos < t < next ==> !Candidate(aligned, t)
    ensures ScanState(bits, limit, count, aligned, next, next)
  {
    forall t: nat | t < next
      ensures !Fits(bits, limit, count, aligned, t)
    {
      if start <= t <= pos {
        assert Inside(t, count, pos);
      }
    }
  }

  lemma ScanExhausted(bits: set<nat>, limit: nat, count: nat, aligned: bool, start: nat, pos: nat)
    requires ScanState(bits, limit, count, aligned, start, pos) && limit <= pos
    ensures NoFit(bits, limit, count, aligned)
  {
  }

  /** A scan that has not found a run that lies inside the array has not reached its end. */
  lemma ScanStaysInside(bits: set<nat>, limit: nat, words: nat, count: nat, aligned: bool, start: nat, i: nat,
                        capacity: nat)
    requires ScanState(bits, limit, count, aligned, start, 32 * i)
    requires limit == 32 * (capacity / 4) && i < capacity / 4
    requires capacity / 4 <= words || !NoFit(bits, 32 * words, count, aligned)
    ensures i < words
  {
    if words <= i {
      var t: nat :| Fits(bits, 32 * words, count, aligned, t);
      assert Fits(bits, limit, count, aligned, t);
    }
  }

  lemma MemberBit(ws: seq<bv32>, w: nat, b: nat)
    requires w < |ws| && b < 32
    ensures 32 * w + b in BitsOf(ws) <==> Bit(ws[w], b)
  {
    var i := 32 * w + b;
    assert i / 32 == w && i % 32 == b;
    assert i in BitsOf(ws) <==> Has(ws, i);
  }

  /** Between two multiples of four there is none. */
  lemma Quads(group: nat, pos: nat)
    requires 4 * group <= pos < 4 * group + 4
    ensures (4 * group + 4) % 4 == 0
    ensures forall t: nat :: pos < t < 4 * group + 4 ==> t % 4 != 0
  {
    forall t: nat | pos < t < 4 * group + 4
      ensures t % 4 != 0
    {
      assert t == 4 * group + (t - 4 * group);
    }
  }

  /** The next candidate after the bit at hand, with the bit counter moved to the lowest of
      its group of four if the scan is aligned. */
  lemma NextCandidate(aligned: bool, i: nat, bit: nat, skip: nat)
    requires bit < 32 && skip == (if aligned then bit - bit % 4 else bit)
    ensures Candidate(aligned, 32 * i + 32 - skip)
    ensures forall t: nat :: 32 * i + 31 - bit < t < 32 * i + 32 - skip ==> !Candidate(aligned, t)
  {
    if aligned {
      var group := 8 * i + 7 - bit / 4;
      assert 32 * i + 32 - skip == 4 * group + 4;
      Quads(group, 32 * i + 31 - bit);
    }
  }

  lemma ScanSeeks(bits: set<nat>, limit: nat, count: nat, aligned: bool, start: nat, pos: nat)
    requires ScanState(bits, limit, count, aligned, start, pos)
    ensures count > 0
  {
  }

  /** The inner loop of the scan: one word, from its most significant bit down.  A set bit
      moves the start of the current run behind it, or behind its group of four. */
  method ScanWord(word: bv32, i: nat, count: nat, aligned: bool, start: nat, length: nat, ghost bits: set<nat>,
                  ghost limit: nat)
    returns (found: bool, currStart: nat, currLength: nat)
    requires start + length == 32 * i && ScanState(bits, limit, count, aligned, start, 32 * i) && 32 * i + 32 <= limit
    requires forall b: nat :: b < 32 ==> (32 * i + b in bits <==> Bit(word, b))
    ensures found ==>
              && currLength == count && currStart + count <= 32 * i + 32
              && IsFirstFit(bits, limit, count, aligned, currStart)
    ensures !found ==>
              && currStart + currLength == 32 * i + 32
              && ScanState(bits, limit, count, aligned, currStart, 32 * i + 32)
  {
    hide IsFirstFit, Bit, ScanState, Candidate;
    ScanSeeks(bits, limit, count, aligned, start, 32 * i);
    currStart, currLength := start, length;
    var bit := 31;
    while bit >= 0
      invariant -1 <= bit <= 31
      invariant currStart + currLength == 32 * i + 31 - bit
      invariant ScanState(bits, limit, count, aligned, currStart, 32 * i + 31 - bit)
    {
      ghost var pos: nat := 32 * i + (31 - bit);
      if Bit(word, 31 - bit) {
        NextCandidate(aligned, i, bit, if aligned then bit - bit % 4 else bit);
        if aligned {
          bit := bit - bit % 4;
        }
        ScanBlocked(bits, limit, count, aligned, currStart, pos, 32 * i + 32 - bit);
        currStart := if bit != 0 then i * 32 + (31 - (bit - 1)) else (i + 1) * 32;
        currLength := 0;
      } else {
        ScanClear(bits, limit, count, aligned, currStart, pos);
        currLength := currLength + 1;
      }
      if currLength == count {
        return true, currStart, currLength;
      }
      bit := bit - 1;
    }
    return false, currStart, currLength;
  }

  /** The scan of `alloc_bitrange`.  Either the array covers the scan, or a fitting run lies
      inside the array, so that the scan stops before it leaves it. */
  method ScanForRun(bitmap: array<bv32>, capacity: nat, count: nat, aligned: bool) returns (r: BitRange)
    requires count > 0
    requires capacity / 4 <= bitmap.Length || !NoFit(BitsOf(bitmap[..]), 32 * bitmap.Length, count, aligned)
    ensures r.length == 0 ==> r.start == 0 && NoFit(BitsOf(bitmap[..]), Scanned(capacity), count, aligned)
    ensures r.length != 0 ==>
              && r.length == count
              && r.start + r.length <= 32 * bitmap.Length
              && IsFirstFit(BitsOf(bitmap[..]), Scanned(capacity), count, aligned, r.start)
  {
    hide ScanState, IsFirstFit, NoFit, BitsOf, Bit;
    ghost var bits := BitsOf(bitmap[..]);
    ghost var limit := Scanned(capacity);
    ScanStart(bits, limit, count, aligned);
    var currLength: nat, currStart: nat := 0, 0;
    var i := 0;
    while i < capacity / 4
      invariant i <= capacity / 4 && i <= bitmap.Length
      invariant currStart + currLength == 32 * i
      invariant ScanState(bits, limit, count, aligned, currStart, 32 * i)
    {
      ScanStaysInside(bits, limit, bitmap.Length, count, aligned, currStart, i, capacity);
      forall b: nat | b < 32
        ensures 32 * i + b in bits <==> Bit(bitmap[i], b)
      {
        MemberBit(bitmap[..], i, b);
      }
      var found;
      found, currStart, currLength := ScanWord(bitmap[i], i, count, aligned, currStart, currLength, bits, limit);
      if found {
        return BitRange(currStart, currLength);
      }
      i := i + 1;
    }
    ScanExhausted(bits, limit, count, aligned, currStart, 32 * i);
    return BitRange(0, 0);
  }

  /** `alloc_bitrange`: the first fit is found and marked, and nothing else changes. */
  method AllocBitRange(bitmap: array<bv32>, capacity: nat, count: nat, aligned: bool) returns (r: BitRange)
    requires count > 0
    requires capacity / 4 <= bitmap.Length || !NoFit(BitsOf(bitmap[..]), 32 * bitmap.Length, count, aligned)
    requires forall s: nat :: IsFirstFit(BitsOf(bitmap[..]), Scanned(capacity), count, aligned, s) ==>
               FitsCounter(s, count)
    modifies bitmap
    ensures r.length == 0 ==>
              && r.start == 0
              && NoFit(old(BitsOf(bitmap[..])), Scanned(capacity), count, aligned)
              && bitmap[..] == old(bitmap[..])
    ensures r.length != 0 ==>
              && r.length == count
              && r.start + r.length <= 32 * bitmap.Length
              && IsFirstFit(old(BitsOf(bitmap[..])), Scanned(capacity), count, aligned, r.start)
              && BitsOf(bitmap[..]) == old(BitsOf(bitmap[..])) + Span(r.start, r.length)
  {
    r := ScanForRun(bitmap, capacity, count, aligned);
    if r.length != 0 {
      FitsCounterIff(r.start, r.length);
      ApplyBitRange(bitmap, r, true);
      AppliedBits(old(bitmap[..]), bitmap[..], r.start, r.length, true);
    }
  }

  method DeallocBitRange(bitmap: array<bv32>, range: BitRange)
    requires range.start + range.length <= 32 * bitmap.Length
    requires range.length > 0 || range.start == 0 || range.start % 32 != 0
    requires FitsCounter(range.start, range.length)
    modifies bitmap
    ensures BitsOf(bitmap[..]) == old(BitsOf(bitmap[..])) - Span(range.start, range.length)
  {
    FitsCounterIff(range.start, range.length);
    ApplyBitRange(bitmap, range, false);
    AppliedBits(old(bitmap[..]), bitmap[..], range.start, range.length, false);
  }
}
