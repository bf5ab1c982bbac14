/** Byte memory and the copying loops of src/string.c. */
module Memory {

  type byte = x: int | 0 <= x < 256

  /** The memory after `count` bytes at `src` have been moved to `dst`, as if through
      an intermediate buffer. */
  function Moved(m: seq<byte>, dst: nat, src: nat, count: nat): (m': seq<byte>)
    requires dst + count <= |m| && src + count <= |m|
    ensures |m'| == |m|
  {
    m[..dst] + m[src..src + count] + m[dst + count..]
  }

  function Filled(m: seq<byte>, dst: nat, value: byte, count: nat): seq<byte>
    requires dst + count <= |m|
  {
    m[..dst] + seq(count, _ => value) + m[dst + count..]
  }

  lemma MovedAt(m: seq<byte>, dst: nat, src: nat, count: nat, i: nat)
    requires dst + count <= |m| && src + count <= |m| && i < |m|
    ensures Moved(m, dst, src, count)[i] == if dst <= i < dst + count then m[src + (i - dst)] else m[i]
  {
  }

  lemma MovedIs(m: seq<byte>, m': seq<byte>, dst: nat, src: nat, count: nat)
    requires dst + count <= |m| && src + count <= |m| && |m'| == |m|
    requires dst != src ==>
               forall j :: 0 <= j < |m| ==>
                 m'[j] == if dst <= j < dst + count then Moved(m, dst, src, count)[j] else m[j]
    requires dst == src ==> m' == m
    ensures m' == Moved(m, dst, src, count)
  {
    hide Moved;
    forall j: nat | j < |m|
      ensures m'[j] == Moved(m, dst, src, count)[j]
    {
      MovedAt(m, dst, src, count, j);
    }
  }

  /** Moving the next stretch after an earlier move to a lower address. */
  lemma MoveMore(m: seq<byte>, dst: nat, src: nat, n: nat, more: nat)
    requires dst <= src && src + n + more <= |m|
    ensures Moved(Moved(m, dst, src, n), dst + n, src + n, more) == Moved(m, dst, src, n + more)
  {
    hide Moved;
    var once, all := Moved(m, dst, src, n), Moved(m, dst, src, n + more);
    var twice := Moved(once, dst + n, src + n, more);
    forall i | 0 <= i < |m|
      ensures twice[i] == all[i]
    {
      MovedAt(m, dst, src, n + more, i);
      MovedAt(once, dst + n, src + n, more, i);
      if dst + n <= i < dst + n + more {
        MovedAt(m, dst, src, n, src + (i - dst));
      } else {
        MovedAt(m, dst, src, n, i);
      }
    }
  }

  /** memmove: the direction of the loop makes overlapping moves safe. */
  method MemMove(mem: array<byte>, dst: nat, src: nat, count: nat)
    requires dst + count <= mem.Length && src + count <= mem.Length
    modifies mem
    ensures mem[..] == Moved(old(mem[..]), dst, src, count)
  {
    hide Moved;
    ghost var m := mem[..];
    ghost var moved := Moved(m, dst, src, count);
    if dst < src {
      var i := 0;
      while i < count
        invariant i <= count
        invariant forall j :: 0 <= j < mem.Length ==> mem[j] == if dst <= j < dst + i then moved[j] else m[j]
      {
        MovedAt(m, dst, src, count, dst + i);
        mem[dst + i] := mem[src + i];
        i := i + 1;
      }
    } else if dst > src {
      var i := count;
      while i > 0
        invariant 0 <= i <= count
        invariant forall j :: 0 <= j < mem.Length ==>
                    mem[j] == if dst + i <= j < dst + count then moved[j] else m[j]
      {
        MovedAt(m, dst, src, count, dst + i - 1);
        mem[dst + i - 1] := mem[src + i - 1];
        i := i - 1;
      }
    }
    MovedIs(m, mem[..], dst, src, count);
  }

  /** memset. */
  method MemSet(mem: array<byte>, dst: nat, value: byte, count: nat)
    requires dst + count <= mem.Length
    modifies mem
    ensures mem[..] == Filled(old(mem[..]), dst, value, count)
  {
    ghost var m := mem[..];
    var i := 0;
    while i < count
      invariant i <= count
      invariant forall j :: 0 <= j < mem.Length ==> mem[j] == if dst <= j < dst + i then value else m[j]
    {
      mem[dst + i] := value;
      i := i + 1;
    }
  }

  /** A C assignment of `data` to the bytes at `at`. */
  method MemWrite(mem: array<byte>, at: nat, data: seq<byte>)
    requires at + |data| <= mem.Length
    modifies mem
    ensures mem[..] == Written(old(mem[..]), at, data)
  {
    ghost var m := mem[..];
    var i := 0;
    while i < |data|
      invariant i <= |data|
      invariant forall j :: 0 <= j < mem.Length ==> mem[j] == if at <= j < at + i then data[j - at] else m[j]
    {
      mem[at + i] := data[i];
      i := i + 1;
    }
  }

  function Written(m: seq<byte>, at: nat, data: seq<byte>): (m': seq<byte>)
    requires at + |data| <= |m|
    ensures |m'| == |m|
  {
    m[..at] + data + m[at + |data|..]
  }

  lemma WrittenIs(m: seq<byte>, m': seq<byte>, at: nat, data: seq<byte>)
    requires at + |data| <= |m| && |m'| == |m|
    requires forall j :: 0 <= j < |m| ==> m'[j] == if at <= j < at + |data| then data[j - at] else m[j]
    ensures m' == Written(m, at, data)
  {
  }

  lemma WrittenOutside(m: seq<byte>, at: nat, data: seq<byte>, lo: nat, hi: nat)
    requires at + |data| <= |m| && lo <= hi <= |m| && (hi <= at || at + |data| <= lo)
    ensures Written(m, at, data)[lo..hi] == m[lo..hi]
  {
  }

  lemma WrittenInside(m: seq<byte>, at: nat, data: seq<byte>)
    requires at + |data| <= |m|
    ensures Written(m, at, data)[at..at + |data|] == data
  {
  }

  // ------------------------------------------------- little-endian words

  const WORD_LIMIT: nat := 0x1_0000_0000

  /** The four bytes of a 32-bit value in memory order. */
  function U32(n: nat): (bs: seq<byte>)
    requires n < WORD_LIMIT
    ensures |bs| == 4
  {
    [n % 256, n / 256 % 256, n / 65536 % 256, n / 16777216]
  }

  function FromU32(bs: seq<byte>): (n: nat)
    requires |bs| == 4
    ensures n < WORD_LIMIT
  {
    var b0: int, b1: int, b2: int, b3: int := bs[0], bs[1], bs[2], bs[3];
    b0 + 256 * b1 + 65536 * b2 + 16777216 * b3
  }

  /** The number that four bytes of memory hold, the least significant first. */
  function Little(m: seq<byte>, at: nat): nat
    requires at + 4 <= |m|
  {
    var b0: int, b1: int, b2: int, b3: int := m[at], m[at + 1], m[at + 2], m[at + 3];
    b0 + 0x100 * b1 + 0x1_0000 * b2 + 0x100_0000 * b3
  }

  /** A word stored is the number there, and a word loaded as well. */
  lemma LittleAt(m: seq<byte>, at: nat, n: nat)
    requires at + 4 <= |m| && n < WORD_LIMIT && m[at..at + 4] == U32(n)
    ensures Little(m, at) == n == FromU32(m[at..at + 4])
  {
    U32RoundTrip(n);
    var bs := m[at..at + 4];
    assert m[at] == bs[0] && m[at + 1] == bs[1] && m[at + 2] == bs[2] && m[at + 3] == bs[3];
    U32Bytes(n);
  }

  lemma U32Bytes(n: nat)
    requires n < WORD_LIMIT
    ensures Little(U32(n), 0) == n
  {
    assert n / 65536 == n / 256 / 256;
    assert n / 16777216 == n / 256 / 256 / 256;
  }

  lemma U32RoundTrip(n: nat)
    requires n < WORD_LIMIT
    ensures FromU32(U32(n)) == n
  {
    assert n / 65536 == n / 256 / 256;
    assert n / 16777216 == n / 256 / 256 / 256;
  }
}
