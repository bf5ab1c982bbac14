/** The state of the file system (src/fs.c) as a value, and what its operations compute.

    The in-memory bitmaps appear as the sets of their set bits, the inode and descriptor
    tables as sequences, and the disk as a sequence of 4096-byte blocks. */
module FsState {
  import opened Common
  import opened Memory
  import opened Bitmap
  import opened Layout

  const DIR: byte := 0
  const NORMAL: byte := 1
  const SPECIAL: byte := 2

  const INODES: nat := 426
  const DESCRIPTORS: nat := 32
  const BITMAP_BITS: nat := 32768
  const DATA_START: nat := 8

  datatype Inode = Inode(name: seq<byte>, ftype: byte, block: nat, size: nat, parent: nat)

  datatype Fd = Fd(name: seq<byte>, inode: nat, readPos: nat, writePos: nat, index: nat)

  datatype Super = Super(indicator: seq<byte>, diskSize: nat, sectorCount: nat, blockCount: nat,
                         iBmapStart: nat, dBmapStart: nat, inodeTableStart: nat, usedInodes: nat, dataStart: nat)

  datatype Fs = Fs(super: Super, ibits: set<nat>, dbits: set<nat>, inodes: seq<Inode>,
                   fdbits: set<nat>, fds: seq<Fd>, disk: seq<Block>)

  type Path = seq<seq<byte>>

  // ---------------------------------------------------------------- shape

  ghost predicate IsName(n: seq<byte>) {
    |n| < NAME_BYTES && 0 !in n
  }

  ghost predicate InodeShape(n: Inode, blocks: nat) {
    IsName(n.name) && n.ftype <= SPECIAL && n.block < blocks && n.size <= BLOCK_BYTES && n.parent < INODES
  }

  /** The arrays have their sizes, and every inode, used or not, stays within them. */
  ghost predicate Shape(fs: Fs) {
    && |fs.inodes| == INODES && |fs.fds| == DESCRIPTORS
    && DATA_START < |fs.disk| <= BITMAP_BITS
    && forall i: nat :: i < INODES ==> InodeShape(fs.inodes[i], |fs.disk|)
  }

  // --------------------------------------------------------------- names

  ghost predicate IsDir(fs: Fs, i: nat) {
    i in fs.ibits && i < |fs.inodes| && fs.inodes[i].ftype == DIR
  }

  /** The entries read from the block of inode `i`, as many as its size says. */
  ghost function Listing(fs: Fs, i: nat): seq<DirEntry>
    requires Shape(fs) && i < INODES
  {
    assert InodeShape(fs.inodes[i], |fs.disk|);
    Entries(fs.disk[fs.inodes[i].block], fs.inodes[i].size / ENTRY_BYTES)
  }

  ghost function Lookup(fs: Fs, i: nat, name: seq<byte>): Option<nat>
    requires Shape(fs) && i < INODES
  {
    FindName(Listing(fs, i), name)
  }

  /** The inode a path of names leads to, through directories, from the root. */
  ghost function Resolve(fs: Fs, p: Path): Option<nat>
    requires Shape(fs)
  {
    if p == [] then Some(0)
    else
      match Resolve(fs, p[..|p| - 1])
      case None => None
      case Some(d) => if d < INODES && IsDir(fs, d) then Lookup(fs, d, p[|p| - 1]) else None
  }

  // ----------------------------------------------------------- invariant

  ghost predicate RootOk(fs: Fs)
    requires Shape(fs)
  {
    0 in fs.ibits && fs.inodes[0].ftype == DIR && fs.inodes[0].block == DATA_START && fs.inodes[0].parent == 0
  }

  ghost predicate BitsOk(fs: Fs) {
    && (forall i: nat :: i in fs.ibits ==> i < INODES)
    && (forall f: nat :: f in fs.fdbits ==> f < DESCRIPTORS)
    && (forall b: nat :: b <= DATA_START ==> b in fs.dbits)
    && (forall b: nat :: b in fs.dbits ==> b < BITMAP_BITS)
  }

  /** "Yorha". */
  const INDICATOR: seq<byte> := [89, 111, 114, 104, 97]

  /** The super block of a formatted disk. */
  ghost predicate SuperOk(s: Super) {
    && s.indicator == INDICATOR
    && s.diskSize < WORD_LIMIT * WORD_LIMIT && s.sectorCount < WORD_LIMIT && s.blockCount == 64
    && s.iBmapStart == 1 && s.dBmapStart == 2 && s.inodeTableStart == 3 && s.dataStart == DATA_START
    && s.usedInodes < WORD_LIMIT
  }

  ghost predicate HasBlock(fs: Fs, i: nat)
    requires Shape(fs)
  {
    i in fs.ibits && i < INODES && fs.inodes[i].ftype != SPECIAL
  }

  /** Live files and directories own distinct data blocks, all marked in the bitmap. */
  ghost predicate BlocksOk(fs: Fs)
    requires Shape(fs)
  {
    && (forall i: nat :: HasBlock(fs, i) ==> fs.inodes[i].block >= DATA_START && fs.inodes[i].block in fs.dbits)
    && forall i: nat, j: nat :: HasBlock(fs, i) && HasBlock(fs, j) && i != j ==>
         fs.inodes[i].block != fs.inodes[j].block
  }

  ghost predicate EntryOk(fs: Fs, d: nat, e: DirEntry)
    requires Shape(fs)
  {
    && e.ino in fs.ibits && 0 < e.ino < INODES
    && fs.inodes[e.ino].parent == d && fs.inodes[e.ino].name == e.name
  }

  ghost predicate DirOk(fs: Fs, d: nat)
    requires Shape(fs) && d < INODES
  {
    && fs.inodes[d].size % ENTRY_BYTES == 0
    && UniqueNames(Listing(fs, d))
    && forall k: nat :: k < |Listing(fs, d)| ==> EntryOk(fs, d, Listing(fs, d)[k])
  }

  ghost predicate DirsOk(fs: Fs)
    requires Shape(fs)
  {
    forall d: nat :: d < INODES && IsDir(fs, d) ==> DirOk(fs, d)
  }

  ghost predicate Mentions(es: seq<DirEntry>, i: nat) {
    exists k: nat :: k < |es| && es[k].ino == i
  }

  /** Every live inode but the root is listed in the directory it names as its parent. */
  ghost predicate ParentsOk(fs: Fs)
    requires Shape(fs)
  {
    forall i: nat :: i in fs.ibits && 0 < i < INODES ==>
      IsDir(fs, fs.inodes[i].parent) && Mentions(Listing(fs, fs.inodes[i].parent), i)
  }

  ghost predicate Reached(fs: Fs, i: nat)
    requires Shape(fs)
  {
    exists p: Path :: Resolve(fs, p) == Some(i)
  }

  /** Every live inode is reached from the root. */
  ghost predicate ReachOk(fs: Fs)
    requires Shape(fs)
  {
    forall i: nat :: i in fs.ibits ==> Reached(fs, i)
  }

  ghost predicate FdsOk(fs: Fs)
    requires Shape(fs)
  {
    forall f: nat :: f in fs.fdbits && f < DESCRIPTORS ==> fs.fds[f].inode in fs.ibits && fs.fds[f].index == f
  }

  ghost predicate Inv(fs: Fs) {
    && SuperOk(fs.super) && Shape(fs) && RootOk(fs) && BitsOk(fs) && BlocksOk(fs) && DirsOk(fs) && ParentsOk(fs)
    && ReachOk(fs) && FdsOk(fs)
  }

  // ---------------------------------------------------------- operations

  /** What allocate_inode leaves behind once the name is known to be new. */
  ghost function NewInode(fs: Fs, d: nat, name: Name, ftype: byte): Fs
    requires |fs.inodes| == INODES && FirstClear(fs.ibits) < INODES
  {
    var ino, block := FirstClear(fs.ibits), if ftype == SPECIAL then 0 else FirstClear(fs.dbits);
    fs.(ibits := fs.ibits + {ino},
        dbits := if ftype == SPECIAL then fs.dbits else fs.dbits + {block},
        inodes := fs.inodes[ino := Inode(name, ftype, block, 0, d)],
        super := fs.super.(usedInodes := (fs.super.usedInodes + 1) % WORD_LIMIT))
  }

  /** link_file_in_dir. */
  ghost function LinkFile(fs: Fs, d: nat, ino: nat): Fs
    requires Shape(fs) && d < INODES && ino < INODES && d != ino
    requires fs.inodes[d].size / ENTRY_BYTES < DIR_FILE_COUNT_MAX
  {
    assert InodeShape(fs.inodes[d], |fs.disk|) && InodeShape(fs.inodes[ino], |fs.disk|);
    var b := fs.inodes[d].block;
    fs.(disk := fs.disk[b := Linked(fs.disk[b], fs.inodes[d].size / ENTRY_BYTES, fs.inodes[ino].name, ino)],
        inodes := fs.inodes[d := fs.inodes[d].(size := fs.inodes[d].size + ENTRY_BYTES)])
  }

  /** unlink_file_in_dir, for the first entry with the inode at slot `k`. */
  ghost function UnlinkFile(fs: Fs, d: nat, k: nat, past: Past): Fs
    requires Shape(fs) && d < INODES && k < fs.inodes[d].size / ENTRY_BYTES
  {
    assert InodeShape(fs.inodes[d], |fs.disk|);
    var b := fs.inodes[d].block;
    fs.(disk := fs.disk[b := Shifted(fs.disk[b], fs.inodes[d].size / ENTRY_BYTES, k, past)],
        inodes := fs.inodes[d := fs.inodes[d].(size := fs.inodes[d].size - ENTRY_BYTES)])
  }

  /** allocate_file_descriptor. */
  ghost function OpenFd(fs: Fs, ino: nat, name: seq<byte>): Fs
    requires |fs.fds| == DESCRIPTORS && FirstClear(fs.fdbits) < DESCRIPTORS
  {
    var fd := FirstClear(fs.fdbits);
    fs.(fdbits := fs.fdbits + {fd}, fds := fs.fds[fd := Fd(name, ino, 0, 0, fd)])
  }

  /** close. */
  ghost function CloseFd(fs: Fs, fd: nat): Fs {
    fs.(fdbits := fs.fdbits - {fd})
  }

  /** The release of the data block and the inode at the end of unlink. */
  ghost function FreeInode(fs: Fs, ino: nat): Fs
    requires ino < |fs.inodes|
  {
    fs.(dbits := fs.dbits - {fs.inodes[ino].block}, ibits := fs.ibits - {ino})
  }

  function Min(a: nat, b: nat): nat {
    if a < b then a else b
  }

  /** How many bytes read delivers, and write takes, from a cursor position. */
  function ReadCount(size: nat, pos: nat, count: nat): nat {
    if pos < size then Min(size - pos, count) else 0
  }

  function WriteCount(pos: nat, count: nat): nat {
    if pos < BLOCK_BYTES then Min(BLOCK_BYTES - pos, count) else 0
  }

  ghost function ReadFd(fs: Fs, fd: nat, count: nat): Fs
    requires fd < |fs.fds| && fs.fds[fd].inode < |fs.inodes|
  {
    var e := fs.fds[fd];
    fs.(fds := fs.fds[fd := e.(readPos := e.readPos + ReadCount(fs.inodes[e.inode].size, e.readPos, count))])
  }

  ghost function WriteFd(fs: Fs, fd: nat, data: seq<byte>): Fs
    requires fd < |fs.fds| && fs.fds[fd].inode < |fs.inodes| && fs.inodes[fs.fds[fd].inode].block < |fs.disk|
  {
    var e := fs.fds[fd];
    var n := WriteCount(e.writePos, |data|);
    var i := e.inode;
    var b := fs.inodes[i].block;
    fs.(fds := fs.fds[fd := e.(writePos := e.writePos + n)],
        inodes := fs.inodes[i := fs.inodes[i].(size := fs.inodes[i].size + n)],
        disk := if n == 0 then fs.disk else fs.disk[b := Written(fs.disk[b], e.writePos, data[..n])])
  }
}
