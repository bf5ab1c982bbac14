/** Printing numbers (src/string.c): intlen, int_to_string and buff_to_hexstring. */
module Numbers {
  import opened Memory

  const ZERO: int := 48
  const MINUS: byte := 45

  /** C division and remainder by ten, which truncate toward zero. */
  function Tenth(v: int): int {
    if v >= 0 then v / 10 else -(-v / 10)
  }

  function LastDigit(v: int): (r: int)
    ensures -9 <= r <= 9 && v == 10 * Tenth(v) + r
    ensures v >= 0 ==> r >= 0
    ensures v <= 0 ==> r <= 0
  {
    v - 10 * Tenth(v)
  }

  function Size(v: int): nat {
    if v >= 0 then v else -v
  }

  lemma TenthSmaller(v: int)
    requires v != 0
    ensures Size(Tenth(v)) < Size(v)
    ensures v > 0 ==> Tenth(v) >= 0
    ensures v < 0 ==> Tenth(v) <= 0
  {
  }

  /** The characters the loop of int_to_string produces, most significant first. */
  function DigitChars(v: int): (s: seq<byte>)
    ensures s != []
    decreases Size(v)
  {
    TenthIfAny(v);
    if Tenth(v) == 0 then [ZERO + LastDigit(v)] else DigitChars(Tenth(v)) + [ZERO + LastDigit(v)]
  }

  lemma TenthIfAny(v: int)
    ensures Tenth(v) != 0 ==> Size(Tenth(v)) < Size(v)
  {
    if v != 0 {
      TenthSmaller(v);
    }
  }

  function Printed(v: int): seq<byte> {
    (if v < 0 then [MINUS] else []) + DigitChars(v)
  }

  /** intlen. */
  method IntLen(value: int) returns (n: nat)
    ensures n == |Printed(value)|
  {
    n := if value < 0 then 1 else 0;
    var v := value;
    n := n + 1;
    TenthIfAny(v);
    v := Tenth(v);
    while v != 0
      invariant n + (if v == 0 then 0 else |DigitChars(v)|) == |Printed(value)|
      decreases Size(v)
    {
      TenthIfAny(v);
      TenthSmaller(v);
      n := n + 1;
      v := Tenth(v);
    }
  }

  /** What is still to be written when `v` is left over. */
  function Rest(v: int): seq<byte> {
    if v == 0 then [] else DigitChars(v)
  }

  lemma DigitStep(v: int)
    ensures DigitChars(v) == Rest(Tenth(v)) + [ZERO + LastDigit(v)]
  {
  }

  lemma LastChar(s: seq<byte>, m: nat, v: int)
    requires m <= |s| && s[..m] == DigitChars(v)
    ensures m > 0 && s[m - 1] == ZERO + LastDigit(v) && s[..m - 1] == Rest(Tenth(v))
  {
    hide DigitChars, Tenth, LastDigit, Rest;
    DigitStep(v);
    var init := Rest(Tenth(v));
    assert s[..m] == init + [ZERO + LastDigit(v)];
    assert s[..m - 1] == s[..m][..m - 1];
    assert s[m - 1] == s[..m][m - 1];
  }

  /** The loop of int_to_string: digits from the last one down, ending before `end`. */
  method WriteDigits(value: int, buffer: array<byte>, end: nat)
    requires |DigitChars(value)| <= end <= buffer.Length
    modifies buffer
    ensures buffer[..] == Written(old(buffer[..]), end - |DigitChars(value)|, DigitChars(value))
  {
    hide DigitChars, Tenth, LastDigit;
    ghost var was, s := buffer[..], DigitChars(value);
    ghost var at := end - |s|;
    assert s[..|s|] == s;
    LastChar(s, |s|, value);
    var i, v := end - 1, Tenth(value);
    buffer[i] := ZERO + LastDigit(value);
    while v != 0
      invariant at <= i < end && Rest(v) == s[..i - at]
      invariant forall j :: 0 <= j < buffer.Length ==> buffer[j] == if i <= j < end then s[j - at] else was[j]
      decreases Size(v)
    {
      LastChar(s, i - at, v);
      TenthSmaller(v);
      i := i - 1;
      buffer[i] := ZERO + LastDigit(v);
      v := Tenth(v);
    }
  }

  /** int_to_string. */
  method IntToString(value: int, buffer: array<byte>)
    requires |Printed(value)| < buffer.Length
    modifies buffer
    ensures var n := |Printed(value)|;
            buffer[..n] == Printed(value) && buffer[n] == 0 && buffer[n + 1..] == old(buffer[n + 1..])
  {
    hide DigitChars;
    var n := IntLen(value);
    if value < 0 {
      buffer[0] := MINUS;
    }
    buffer[n] := 0;
    WriteDigits(value, buffer, n);
  }

  // ------------------------------------------------------------- reading back

  predicate IsDigit(c: byte) {
    ZERO <= c < ZERO + 10
  }

  ghost predicate AllDigits(s: seq<byte>) {
    forall i :: 0 <= i < |s| ==> IsDigit(s[i])
  }

  function Parse(s: seq<byte>): int {
    if s == [] then 0
    else
      var c: int := s[|s| - 1];
      10 * Parse(s[..|s| - 1]) + c - ZERO
  }

  /** Every character is '0' plus a signed digit of the number's own sign. */
  ghost predicate SignedDigits(s: seq<byte>, v: int) {
    forall i :: 0 <= i < |s| ==>
      if v >= 0 then '0' as int <= s[i] <= '9' as int else ZERO - 9 <= s[i] <= ZERO
  }

  /** A number prints as its digits, without a superfluous leading zero, and reads back as
      itself; the digits of a negative number are negative ones. */
  lemma {:induction false} DigitsReadBack(v: int)
    ensures SignedDigits(DigitChars(v), v) && Parse(DigitChars(v)) == v
    ensures v != 0 ==> DigitChars(v)[0] != ZERO
    decreases Size(v)
  {
    TenthIfAny(v);
    var c := ZERO + LastDigit(v);
    if Tenth(v) != 0 {
      DigitsReadBack(Tenth(v));
      var init := DigitChars(Tenth(v));
      assert (init + [c])[..|init|] == init;
    } else {
      assert Parse([]) == 0 && [c][..0] == [];
    }
  }

  /** A negative number does not print as digits at all: the remainder of a negative number
      is negative, so its characters lie below '0'. */
  lemma {:induction false} NegativeDigits(v: int)
    requires v < 0
    ensures !AllDigits(DigitChars(v))
    decreases -v
  {
    var s := DigitChars(v);
    if LastDigit(v) != 0 {
      assert !IsDigit(s[|s| - 1]);
    } else {
      TenthSmaller(v);
      NegativeDigits(Tenth(v));
      var init := DigitChars(Tenth(v));
      var i :| 0 <= i < |init| && !IsDigit(init[i]);
      assert s[i] == init[i];
    }
  }

  /** int_to_string prints a decimal numeral exactly for the non-negative numbers. */
  lemma PrintsNumeralIff(v: int)
    ensures (AllDigits(DigitChars(v)) && Parse(DigitChars(v)) == v) <==> v >= 0
  {
    if v >= 0 {
      DigitsReadBack(v);
    } else {
      NegativeDigits(v);
    }
  }

  // --------------------------------------------------------------- hex words

  function HexChar(n: nat): byte
    requires n < 16
  {
    if n < 10 then 48 + n else 55 + n
  }

  function HexValue(c: byte): int {
    if c < 58 then c - 48 else c - 55
  }

  /** The `k` hexadecimal digits of `w`, most significant first. */
  function Hex(w: nat, k: nat): (s: seq<byte>)
    ensures |s| == k
  {
    if k == 0 then [] else Hex(w / 16, k - 1) + [HexChar(w % 16)]
  }

  function HexAll(ws: seq<nat>): (s: seq<byte>)
    ensures |s| == 8 * |ws|
  {
    if ws == [] then [] else HexAll(ws[..|ws| - 1]) + Hex(ws[|ws| - 1], 8)
  }

  function ParseHex(s: seq<byte>): int {
    if s == [] then 0 else 16 * ParseHex(s[..|s| - 1]) + HexValue(s[|s| - 1])
  }

  function Pow16(k: nat): nat {
    if k == 0 then 1 else 16 * Pow16(k - 1)
  }

  lemma {:induction false} HexRoundTrip(w: nat, k: nat)
    requires w < Pow16(k)
    ensures ParseHex(Hex(w, k)) == w
  {
    if k > 0 {
      assert w / 16 < Pow16(k - 1);
      HexRoundTrip(w / 16, k - 1);
      var init := Hex(w / 16, k - 1);
      assert (init + [HexChar(w % 16)])[..|init|] == init;
    }
  }

  /** Every word of the input is read back from its eight digits. */
  lemma {:induction false} HexAllRoundTrip(ws: seq<nat>, i: nat)
    requires i < |ws| && ws[i] < WORD_LIMIT
    ensures ParseHex(HexAll(ws)[8 * i..8 * i + 8]) == ws[i]
  {
    var init := ws[..|ws| - 1];
    if i < |ws| - 1 {
      HexAllRoundTrip(init, i);
      assert HexAll(ws)[8 * i..8 * i + 8] == HexAll(init)[8 * i..8 * i + 8];
    } else {
      assert HexAll(ws)[8 * i..8 * i + 8] == Hex(ws[i], 8);
      Pow16Eight();
      HexRoundTrip(ws[i], 8);
    }
  }

  lemma Pow16Eight()
    ensures Pow16(8) == WORD_LIMIT
  {
    assert Pow16(2) == 256 && Pow16(4) == 65536 && Pow16(6) == 16777216;
  }

  function Shifted(w: nat, k: nat): nat {
    if k == 0 then w else Shifted(w, k - 1) / 16
  }

  lemma {:induction false} ShiftedInside(w: nat, k: nat)
    ensures Shifted(w / 16, k) == Shifted(w, k + 1)
  {
    if k > 0 {
      ShiftedInside(w, k - 1);
    }
  }

  lemma {:induction false} HexDigit(w: nat, k: nat, j: nat)
    requires j < k
    ensures Hex(w, k)[j] == HexChar(Shifted(w, k - 1 - j) % 16)
  {
    if j < k - 1 {
      HexDigit(w / 16, k - 1, j);
      ShiftedInside(w, k - 2 - j);
    }
  }

  /** The digits are those of the table: '0' to '9' and 'A' to 'F'. */
  ghost predicate HexDigits(s: seq<byte>) {
    forall i :: 0 <= i < |s| ==> '0' as int <= s[i] <= '9' as int || 'A' as int <= s[i] <= 'F' as int
  }

  lemma {:induction false} HexIsDigits(w: nat, k: nat)
    ensures HexDigits(Hex(w, k))
  {
    if k > 0 {
      HexIsDigits(w / 16, k - 1);
    }
  }

  /** On those digits, the value of a character is its place in the table. */
  lemma HexTable(c: byte)
    requires HexDigits([c])
    ensures 0 <= HexValue(c) < 16 && "0123456789ABCDEF"[HexValue(c)] as int == c
  {
    assert [c][0] == c;
  }

  /** What is printed is made of digits of the table only, so with the round trip every digit
      is the one of its nibble. */
  lemma {:induction false} HexAllIsDigits(ws: seq<nat>)
    ensures HexDigits(HexAll(ws))
  {
    if ws != [] {
      HexAllIsDigits(ws[..|ws| - 1]);
      HexIsDigits(ws[|ws| - 1], 8);
    }
  }

  /** One word of buff_to_hexstring: two nibbles a byte, from the top byte down. */
  method HexWord(w: nat, dst: array<byte>, at: nat)
    requires at + 8 <= dst.Length
    modifies dst
    ensures dst[..] == Written(old(dst[..]), at, Hex(w, 8))
  {
    hide Hex;
    ghost var was, want := dst[..], Hex(w, 8);
    var b := 3;
    while b >= 0
      invariant -1 <= b <= 3
      invariant forall j :: 0 <= j < dst.Length ==>
                  dst[j] == if at <= j < at + 2 * (3 - b) then want[j - at] else was[j]
    {
      HexDigit(w, 8, 2 * (3 - b));
      HexDigit(w, 8, 2 * (3 - b) + 1);
      dst[at + 2 * (3 - b)] := HexChar(Shifted(w, 2 * b + 1) % 16);
      dst[at + 2 * (3 - b) + 1] := HexChar(Shifted(w, 2 * b) % 16);
      b := b - 1;
    }
  }

  /** buff_to_hexstring, for an array of words. */
  method BuffToHexstring(src: seq<nat>, dst: array<byte>)
    requires 8 * |src| <= dst.Length
    modifies dst
    ensures dst[..8 * |src|] == HexAll(src) && dst[8 * |src|..] == old(dst[8 * |src|..])
  {
    hide Hex;
    ghost var was := dst[..];
    var word := 0;
    while word < |src|
      invariant word <= |src|
      invariant dst[..8 * word] == HexAll(src[..word])
      invariant dst[8 * word..] == was[8 * word..]
    {
      ghost var before := dst[..];
      HexWord(src[word], dst, 8 * word);
      assert src[..word + 1][..word] == src[..word];
      assert dst[..8 * (word + 1)] == before[..8 * word] + Hex(src[word], 8);
      assert dst[8 * (word + 1)..] == before[8 * word..][8..];
      word := word + 1;
    }
    assert src[..|src|] == src;
  }
}
