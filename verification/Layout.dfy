/** The on-disk layout of the file system (include/fs.h): directory entries of 36 bytes,
    inodes of 48 bytes, bitmaps of words, and the super block. */
module Layout {
  import opened Common
  import opened Memory

  const BLOCK_BYTES: nat := 4096
  const NAME_BYTES: nat := 32
  const ENTRY_BYTES: nat := 36
  const DIR_FILE_COUNT_MAX: nat := 113

  type Block = b: seq<byte> | |b| == BLOCK_BYTES witness seq(BLOCK_BYTES, _ => 0)

  type Name = n: seq<byte> | |n| < NAME_BYTES && 0 !in n witness []

  // ------------------------------------------------------------ C strings

  /** The characters of a buffer before its first NUL. */
  function CStr(bs: seq<byte>): (s: seq<byte>)
    ensures |s| <= |bs| && 0 !in s && s <= bs
    ensures |s| < |bs| ==> bs[|s|] == 0
  {
    if bs == [] || bs[0] == 0 then [] else [bs[0]] + CStr(bs[1..])
  }

  lemma {:induction false} CStrOf(s: seq<byte>, rest: seq<byte>)
    requires 0 !in s
    ensures CStr(s + [0] + rest) == s
  {
    if s == [] {
      assert s + [0] + rest == [0] + rest;
    } else {
      CStrOf(s[1..], rest);
      assert (s + [0] + rest)[1..] == s[1..] + [0] + rest;
    }
  }

  /** A byte as the signed char of an i686. */
  function Signed(c: byte): int {
    if c < 128 then c else c - 256
  }

  /** The order of C strings: the first difference decides; the end is a zero. */
  ghost predicate Before(x: seq<byte>, y: seq<byte>) {
    exists k: nat :: k <= |x| && k <= |y| && x[..k] == y[..k] && CharAt(x, k) < CharAt(y, k)
  }

  function CharAt(x: seq<byte>, k: nat): int {
    if k < |x| then Signed(x[k]) else 0
  }

  /** strcmp on two buffers, the second of which is terminated. */
  method Strcmp(a: seq<byte>, b: seq<byte>) returns (r: int)
    requires 0 in b && (0 in a || |CStr(b)| < |a|)
    ensures r == 0 <==> CStr(a) == CStr(b)
    ensures r < 0 ==> Before(CStr(a), CStr(b))
    ensures r > 0 ==> Before(CStr(b), CStr(a))
  {
    hide CStr;
    ghost var x, y := CStr(a), CStr(b);
    var i := 0;
    while a[i] != 0 && a[i] == b[i]
      invariant i < |a| && i < |b| && i <= |x| && i <= |y|
      invariant x[..i] == y[..i]
      decreases |a| - i
    {
      assert a[i] == x[i] && b[i] == y[i];
      i := i + 1;
    }
    assert Signed(a[i]) == CharAt(x, i) && Signed(b[i]) == CharAt(y, i);
    assert x[..i] == y[..i];
    return Signed(a[i]) - Signed(b[i]);
  }

  // ---------------------------------------------------------- directories

  datatype DirEntry = DirEntry(name: seq<byte>, ino: nat)

  /** The bytes of directory slot `k`. */
  function Slot(b: Block, k: nat): (s: seq<byte>)
    requires k < DIR_FILE_COUNT_MAX
    ensures |s| == ENTRY_BYTES
  {
    b[ENTRY_BYTES * k..ENTRY_BYTES * (k + 1)]
  }

  function DecodeEntry(s: seq<byte>): DirEntry
    requires |s| == ENTRY_BYTES
  {
    DirEntry(CStr(s[..NAME_BYTES]), FromU32(s[NAME_BYTES..]))
  }

  function EntryAt(b: Block, k: nat): DirEntry
    requires k < DIR_FILE_COUNT_MAX
  {
    DecodeEntry(Slot(b, k))
  }

  /** The listing of a directory block that holds `count` entries. */
  function Entries(b: Block, count: nat): (es: seq<DirEntry>)
    requires count <= DIR_FILE_COUNT_MAX
    ensures |es| == count
  {
    seq(count, k requires 0 <= k < count => EntryAt(b, k))
  }

  /** The stores of link_file_in_dir into the slot after the last entry. */
  function Linked(b: Block, count: nat, name: Name, ino: nat): (b': Block)
    requires count < DIR_FILE_COUNT_MAX && ino < WORD_LIMIT
    ensures |b'| == BLOCK_BYTES
  {
    Written(Written(b, ENTRY_BYTES * count + NAME_BYTES, U32(ino)), ENTRY_BYTES * count, name + [0])
  }

  /** The bytes that a slot after the last one of a block would have past the block. */
  const PAST_BYTES: nat := 8

  type Past = p: seq<byte> | |p| == PAST_BYTES witness seq(PAST_BYTES, _ => 0)

  /** The shift of unlink_file_in_dir: slots after `k` move down by one, and the slot
      past the last entry is copied along.  In a full block that slot ends in whatever
      bytes lie past the buffer. */
  function Shifted(b: Block, count: nat, k: nat, past: Past): (b': Block)
    requires k < count <= DIR_FILE_COUNT_MAX
    ensures |b'| == BLOCK_BYTES
  {
    Moved(b + past, ENTRY_BYTES * k, ENTRY_BYTES * (k + 1), ENTRY_BYTES * (count - k))[..BLOCK_BYTES]
  }

  lemma DecodeStored(s: seq<byte>, name: Name, ino: nat)
    requires |s| == ENTRY_BYTES && ino < WORD_LIMIT
    requires s[..|name| + 1] == name + [0] && s[NAME_BYTES..] == U32(ino)
    ensures DecodeEntry(s) == DirEntry(name, ino)
  {
    hide U32, FromU32;
    U32RoundTrip(ino);
    var field := s[..NAME_BYTES];
    assert field == name + [0] + field[|name| + 1..];
    CStrOf(name, field[|name| + 1..]);
  }

  lemma LinkedSlot(b: Block, count: nat, name: Name, ino: nat, k: nat)
    requires count < DIR_FILE_COUNT_MAX && ino < WORD_LIMIT && k <= count
    ensures EntryAt(Linked(b, count, name, ino), k) == if k < count then EntryAt(b, k) else DirEntry(name, ino)
  {
    hide U32, FromU32, CStr, Written;
    var at := ENTRY_BYTES * count;
    var b1 := Written(b, at + NAME_BYTES, U32(ino));
    var b' := Written(b1, at, name + [0]);
    if k < count {
      WrittenOutside(b, at + NAME_BYTES, U32(ino), ENTRY_BYTES * k, ENTRY_BYTES * (k + 1));
      WrittenOutside(b1, at, name + [0], ENTRY_BYTES * k, ENTRY_BYTES * (k + 1));
    } else {
      WrittenInside(b, at + NAME_BYTES, U32(ino));
      WrittenOutside(b1, at, name + [0], at + NAME_BYTES, at + ENTRY_BYTES);
      WrittenInside(b1, at, name + [0]);
      var s := b'[at..at + ENTRY_BYTES];
      assert s[..|name| + 1] == b'[at..at + |name + [0]|];
      assert s[NAME_BYTES..] == b'[at + NAME_BYTES..at + ENTRY_BYTES];
      DecodeStored(s, name, ino);
    }
  }

  /** Linking appends one entry to the listing. */
  lemma LinkAppends(b: Block, count: nat, name: Name, ino: nat)
    requires count < DIR_FILE_COUNT_MAX && ino < WORD_LIMIT
    ensures Entries(Linked(b, count, name, ino), count + 1) == Entries(b, count) + [DirEntry(name, ino)]
  {
    hide EntryAt, Linked;
    forall k | 0 <= k <= count
      ensures Entries(Linked(b, count, name, ino), count + 1)[k] == (Entries(b, count) + [DirEntry(name, ino)])[k]
    {
      LinkedSlot(b, count, name, ino, k);
    }
  }

  /** Outside the entry, and between its name and its number, the block stays. */
  lemma LinkedElsewhere(b: Block, count: nat, name: Name, ino: nat, i: nat)
    requires count < DIR_FILE_COUNT_MAX && ino < WORD_LIMIT && i < BLOCK_BYTES
    requires i < 36 * count || 36 * count + |name| < i < 36 * count + 32 || 36 * count + 36 <= i
    ensures Linked(b, count, name, ino)[i] == b[i]
  {
  }

  function Without<T>(s: seq<T>, k: nat): seq<T>
    requires k < |s|
  {
    s[..k] + s[k + 1..]
  }

  lemma ShiftedSlot(b: Block, count: nat, k: nat, past: Past, j: nat)
    requires k < count <= DIR_FILE_COUNT_MAX && j < count - 1
    ensures Slot(Shifted(b, count, k, past), j) == Slot(b, if j < k then j else j + 1)
  {
    hide Moved;
    var m, m' := b + past, Shifted(b, count, k, past);
    var from := if j < k then j else j + 1;
    forall i | 0 <= i < ENTRY_BYTES
      ensures Slot(m', j)[i] == Slot(b, from)[i]
    {
      MovedAt(m, ENTRY_BYTES * k, ENTRY_BYTES * (k + 1), ENTRY_BYTES * (count - k), ENTRY_BYTES * j + i);
      assert m'[ENTRY_BYTES * j + i] == m[ENTRY_BYTES * from + i];
    }
  }

  lemma ShiftedElsewhere(b: Block, count: nat, k: nat, past: Past, i: nat)
    requires k < count <= DIR_FILE_COUNT_MAX && i < BLOCK_BYTES && (i < 36 * k || 36 * count <= i)
    ensures Shifted(b, count, k, past)[i] == b[i]
  {
    hide Moved;
    MovedAt(b + past, ENTRY_BYTES * k, ENTRY_BYTES * (k + 1), ENTRY_BYTES * (count - k), i);
  }

  /** Unlinking removes one entry and keeps the order of the others, in a full directory
      too, whatever lies past its buffer. */
  lemma UnlinkRemoves(b: Block, count: nat, k: nat, past: Past)
    requires k < count <= DIR_FILE_COUNT_MAX
    ensures Entries(Shifted(b, count, k, past), count - 1) == Without(Entries(b, count), k)
  {
    hide Slot, Shifted, DecodeEntry;
    forall j | 0 <= j < count - 1
      ensures Entries(Shifted(b, count, k, past), count - 1)[j] == Without(Entries(b, count), k)[j]
    {
      ShiftedSlot(b, count, k, past, j);
    }
  }

  /** Linking a file and unlinking it again restores the listing. */
  lemma LinkThenUnlink(b: Block, count: nat, name: Name, ino: nat, past: Past)
    requires count < DIR_FILE_COUNT_MAX && ino < WORD_LIMIT
    ensures Entries(Shifted(Linked(b, count, name, ino), count + 1, count, past), count) == Entries(b, count)
  {
    hide Shifted, Linked, Entries;
    LinkAppends(b, count, name, ino);
    UnlinkRemoves(Linked(b, count, name, ino), count + 1, count, past);
    assert Without(Entries(b, count) + [DirEntry(name, ino)], count) == Entries(b, count);
  }

  // ------------------------------------------------------ finding a name

  /** The search of search_dir and seek_directory: the first entry with the name. */
  function FindName(es: seq<DirEntry>, name: seq<byte>): Option<nat> {
    if es == [] then None
    else if es[0].name == name then Some(es[0].ino)
    else FindName(es[1..], name)
  }

  ghost predicate UniqueNames(es: seq<DirEntry>) {
    forall i, j :: 0 <= i < j < |es| ==> es[i].name != es[j].name
  }

  /** Finding a name means finding an entry with it, or that there is none. */
  lemma {:induction false} FindNameIs(es: seq<DirEntry>, name: seq<byte>)
    ensures match FindName(es, name)
            case Some(ino) => exists k :: 0 <= k < |es| && es[k] == DirEntry(name, ino)
            case None => forall k :: 0 <= k < |es| ==> es[k].name != name
  {
    if es != [] && es[0].name != name {
      FindNameIs(es[1..], name);
      match FindName(es[1..], name)
      case Some(ino) =>
        var k :| 0 <= k < |es[1..]| && es[1..][k] == DirEntry(name, ino);
        assert es[k + 1] == DirEntry(name, ino);
      case None =>
        forall k | 0 <= k < |es|
          ensures es[k].name != name
        {
          assert k > 0 ==> es[k] == es[1..][k - 1];
        }
    }
  }

  /** Of several entries with the name it is the first. */
  lemma {:induction false} FindNameFirst(es: seq<DirEntry>, name: seq<byte>, k: nat)
    requires k < |es| && es[k].name == name && forall j: nat :: j < k ==> es[j].name != name
    ensures FindName(es, name) == Some(es[k].ino)
  {
    if k > 0 {
      forall j: nat | j < k - 1
        ensures es[1..][j].name != name
      {
        assert es[1..][j] == es[j + 1];
      }
      FindNameFirst(es[1..], name, k - 1);
    }
  }

  lemma FindNameAt(es: seq<DirEntry>, k: nat)
    requires UniqueNames(es) && k < |es|
    ensures FindName(es, es[k].name) == Some(es[k].ino)
  {
    FindNameIs(es, es[k].name);
  }

  lemma FindNameAppend(es: seq<DirEntry>, e: DirEntry, name: seq<byte>)
    requires UniqueNames(es) && forall k :: 0 <= k < |es| ==> es[k].name != e.name
    ensures UniqueNames(es + [e])
    ensures FindName(es + [e], name) == if name == e.name then Some(e.ino) else FindName(es, name)
  {
    var es' := es + [e];
    FindNameIs(es', name);
    FindNameIs(es, name);
    assert es'[|es|] == e;
    assert forall k :: 0 <= k < |es| ==> es'[k] == es[k];
  }

  lemma FindNameWithout(es: seq<DirEntry>, k: nat, name: seq<byte>)
    requires UniqueNames(es) && k < |es|
    ensures UniqueNames(Without(es, k))
    ensures FindName(Without(es, k), name) == if name == es[k].name then None else FindName(es, name)
  {
    var es' := Without(es, k);
    assert forall j :: 0 <= j < |es'| ==> es'[j] == es[if j < k then j else j + 1];
    FindNameIs(es', name);
    FindNameIs(es, name);
    if name != es[k].name && FindName(es, name).Some? {
      var j :| 0 <= j < |es| && es[j] == DirEntry(name, FindName(es, name).value);
      assert es'[if j < k then j else j - 1] == es[j];
    }
  }

  /** The search of unlink_file_in_dir: the first slot with the inode, or the count. */
  function IndexOf(es: seq<DirEntry>, ino: nat): (k: nat)
    ensures k <= |es|
    ensures k < |es| ==> es[k].ino == ino
    ensures forall j :: 0 <= j < k ==> es[j].ino != ino
  {
    if es == [] then 0
    else if es[0].ino == ino then 0
    else 1 + IndexOf(es[1..], ino)
  }
}
