/** Every step of the file system keeps its invariant. */
module FsInvariant {
  import opened Common
  import opened Memory
  import opened Bitmap
  import opened Layout
  import opened FsState
  import opened FsNames

  // --------------------------------------------------------------- create

  lemma CreatedBlocks(fs: Fs, d: nat, name: seq<byte>, ftype: byte)
    requires CanCreate(fs, d, name, ftype)
    ensures var fs' := Created(fs, d, name, ftype);
            Shape(fs') && BitsOk(fs') && BlocksOk(fs') && RootOk(fs') && FdsOk(fs')
  {
    hide DirsOk, ParentsOk, ReachOk, Created, Listing, Lookup;
    var fs', ino := Created(fs, d, name, ftype), FirstClear(fs.ibits);
    CreatedNew(fs, d, name, ftype);
    IbitsCreated(fs, d, name, ftype);
    forall i: nat | i in fs.ibits
      ensures i < INODES && fs'.inodes[i].block == fs.inodes[i].block && fs'.inodes[i].ftype == fs.inodes[i].ftype
      ensures fs'.inodes[i].parent == fs.inodes[i].parent
    {
      CreatedListing(fs, d, name, ftype, i);
    }
    forall i: nat | HasBlock(fs', i)
      ensures fs'.inodes[i].block >= DATA_START && fs'.inodes[i].block in fs'.dbits
    {
      if i != ino {
        assert HasBlock(fs, i);
      }
    }
    forall i: nat, j: nat | HasBlock(fs', i) && HasBlock(fs', j) && i != j
      ensures fs'.inodes[i].block != fs'.inodes[j].block
    {
      assert i != ino ==> HasBlock(fs, i);
      assert j != ino ==> HasBlock(fs, j);
    }
  }

  lemma CreatedEntryOk(fs: Fs, d: nat, name: seq<byte>, ftype: byte, i: nat, e: DirEntry)
    requires CanCreate(fs, d, name, ftype) && EntryOk(fs, i, e)
    ensures Shape(Created(fs, d, name, ftype)) && EntryOk(Created(fs, d, name, ftype), i, e)
  {
    hide RootOk, BitsOk, BlocksOk, DirsOk, ParentsOk, ReachOk, FdsOk, Created, Listing, Lookup;
    CreatedListing(fs, d, name, ftype, e.ino);
    IbitsCreated(fs, d, name, ftype);
  }

  lemma CreatedDirOk(fs: Fs, d: nat, name: seq<byte>, ftype: byte, i: nat)
    requires CanCreate(fs, d, name, ftype) && i < INODES && i in fs.ibits && IsDir(fs, i)
    ensures Shape(Created(fs, d, name, ftype)) && DirOk(Created(fs, d, name, ftype), i)
  {
    hide RootOk, BitsOk, BlocksOk, ParentsOk, ReachOk, FdsOk, Created, Listing, EntryOk;
    var fs', ino := Created(fs, d, name, ftype), FirstClear(fs.ibits);
    CreatedListing(fs, d, name, ftype, i);
    assert DirOk(fs, i);
    var es := Listing(fs, i);
    forall k: nat | k < |es|
      ensures EntryOk(fs', i, es[k])
    {
      CreatedEntryOk(fs, d, name, ftype, i, es[k]);
    }
    if i == d {
      FindNameIs(es, name);
      FindNameAppend(es, DirEntry(name, ino), name);
      NewEntryOk(fs, d, name, ftype);
    }
  }

  lemma NewEntryOk(fs: Fs, d: nat, name: seq<byte>, ftype: byte)
    requires CanCreate(fs, d, name, ftype)
    ensures Shape(Created(fs, d, name, ftype))
    ensures EntryOk(Created(fs, d, name, ftype), d, DirEntry(name, FirstClear(fs.ibits)))
  {
    hide BlocksOk, DirsOk, ParentsOk, ReachOk, FdsOk, Created, Listing, Lookup;
    CreatedNew(fs, d, name, ftype);
  }

  lemma CreatedDirs(fs: Fs, d: nat, name: seq<byte>, ftype: byte)
    requires CanCreate(fs, d, name, ftype)
    ensures Shape(Created(fs, d, name, ftype)) && DirsOk(Created(fs, d, name, ftype))
  {
    hide RootOk, BlocksOk, DirsOk, DirOk, ParentsOk, ReachOk, FdsOk, Created, Listing, Lookup;
    var fs', ino := Created(fs, d, name, ftype), FirstClear(fs.ibits);
    CreatedNew(fs, d, name, ftype);
    IbitsCreated(fs, d, name, ftype);
    forall i: nat | i < INODES && IsDir(fs', i)
      ensures DirOk(fs', i)
    {
      if i == ino {
        EmptyDirOk(fs', i);
      } else {
        CreatedListing(fs, d, name, ftype, i);
        CreatedDirOk(fs, d, name, ftype, i);
      }
    }
    DirsFrom(fs');
  }

  lemma EmptyDirOk(fs: Fs, i: nat)
    requires Shape(fs) && i < INODES && fs.inodes[i].size == 0 && Listing(fs, i) == []
    ensures DirOk(fs, i)
  {
  }

  lemma DirsFrom(fs: Fs)
    requires Shape(fs) && forall i: nat :: i < INODES && IsDir(fs, i) ==> DirOk(fs, i)
    ensures DirsOk(fs)
  {
    hide DirOk;
  }

  lemma CreatedParents(fs: Fs, d: nat, name: seq<byte>, ftype: byte)
    requires CanCreate(fs, d, name, ftype)
    ensures Shape(Created(fs, d, name, ftype)) && ParentsOk(Created(fs, d, name, ftype))
  {
    hide RootOk, BlocksOk, DirsOk, ReachOk, FdsOk, Created, Listing, Lookup;
    var fs', ino := Created(fs, d, name, ftype), FirstClear(fs.ibits);
    CreatedNew(fs, d, name, ftype);
    IbitsCreated(fs, d, name, ftype);
    forall i: nat | i in fs'.ibits && 0 < i < INODES
      ensures IsDir(fs', fs'.inodes[i].parent) && Mentions(Listing(fs', fs'.inodes[i].parent), i)
    {
      var q := if i == ino then d else fs.inodes[i].parent;
      CreatedListing(fs, d, name, ftype, q);
      assert HasBlock(fs, q);
      if i == ino {
        assert Listing(fs', d)[|Listing(fs, d)|].ino == ino;
      } else {
        CreatedListing(fs, d, name, ftype, i);
        var k: nat :| k < |Listing(fs, q)| && Listing(fs, q)[k].ino == i;
        assert Listing(fs', q)[k].ino == i;
      }
    }
  }

  lemma CreatedReach(fs: Fs, d: nat, name: seq<byte>, ftype: byte)
    requires CanCreate(fs, d, name, ftype)
    ensures Shape(Created(fs, d, name, ftype)) && ReachOk(Created(fs, d, name, ftype))
  {
    hide RootOk, BitsOk, BlocksOk, DirsOk, ParentsOk, FdsOk, Created, Listing, Lookup, Resolve;
    var fs', ino := Created(fs, d, name, ftype), FirstClear(fs.ibits);
    CreatedShape(fs, d, name, ftype);
    IbitsCreated(fs, d, name, ftype);
    assert Reached(fs, d);
    var pd: Path :| Resolve(fs, pd) == Some(d);
    forall i: nat | i in fs'.ibits
      ensures Reached(fs', i)
    {
      if i == ino {
        ResolveCreated(fs, d, pd, name, ftype, pd + [name]);
      } else {
        assert Reached(fs, i);
        var p: Path :| Resolve(fs, p) == Some(i);
        ResolveCreated(fs, d, pd, name, ftype, p);
        NewPathWasFree(fs, d, pd, name, ftype);
      }
    }
  }

  lemma NewPathWasFree(fs: Fs, d: nat, pd: Path, name: seq<byte>, ftype: byte)
    requires CanCreate(fs, d, name, ftype) && Resolve(fs, pd) == Some(d)
    ensures Resolve(fs, pd + [name]) == None
  {
    hide RootOk, BitsOk, BlocksOk, DirsOk, ParentsOk, ReachOk, FdsOk, Listing;
    var p := pd + [name];
    assert p[..|p| - 1] == pd && p[|p| - 1] == name;
  }

  lemma CreateKeeps(fs: Fs, d: nat, name: seq<byte>, ftype: byte)
    requires CanCreate(fs, d, name, ftype)
    ensures Inv(Created(fs, d, name, ftype))
  {
    hide RootOk, BitsOk, BlocksOk, DirsOk, ParentsOk, ReachOk, FdsOk, Created, Listing, Lookup;
    IbitsCreated(fs, d, name, ftype);
    CreatedBlocks(fs, d, name, ftype);
    CreatedDirs(fs, d, name, ftype);
    CreatedParents(fs, d, name, ftype);
    CreatedReach(fs, d, name, ftype);
  }

  // --------------------------------------------------------------- unlink

  lemma UnlinkedBlocks(fs: Fs, d: nat, k: nat, past: Past)
    requires CanUnlink(fs, d, k)
    ensures var fs' := Unlinked(fs, d, k, past); Shape(fs') && BitsOk(fs') && BlocksOk(fs') && RootOk(fs') && FdsOk(fs')
  {
    hide DirsOk, ParentsOk, ReachOk, Unlinked, Listing;
    var fs', ino := Unlinked(fs, d, k, past), Target(fs, d, k);
    UnlinkedShape(fs, d, k, past);
    TargetIsFile(fs, d, k);
    forall i: nat | i in fs'.ibits
      ensures i < INODES && fs'.inodes[i].block == fs.inodes[i].block && fs'.inodes[i].ftype == fs.inodes[i].ftype
      ensures fs'.inodes[i].parent == fs.inodes[i].parent
    {
      UnlinkedListing(fs, d, k, past, i);
    }
    assert HasBlock(fs, ino) && HasBlock(fs, 0);
    forall i: nat | HasBlock(fs', i)
      ensures fs'.inodes[i].block >= DATA_START && fs'.inodes[i].block in fs'.dbits
    {
      assert HasBlock(fs, i);
    }
    forall i: nat, j: nat | HasBlock(fs', i) && HasBlock(fs', j) && i != j
      ensures fs'.inodes[i].block != fs'.inodes[j].block
    {
      assert HasBlock(fs, i) && HasBlock(fs, j);
    }
  }

  lemma TargetIsFile(fs: Fs, d: nat, k: nat)
    requires CanUnlink(fs, d, k)
    ensures Inv(fs) && fs.inodes[Target(fs, d, k)].ftype == NORMAL
    ensures forall f: nat :: f in fs.fdbits && f < DESCRIPTORS ==> fs.fds[f].inode != Target(fs, d, k)
    ensures forall j: nat :: j in fs.ibits && 0 < j < INODES ==> fs.inodes[j].parent != Target(fs, d, k)
  {
    hide BitsOk, BlocksOk, DirsOk, ReachOk, FdsOk, Listing;
  }

  /** Other entries keep pointing at live inodes: only one entry named the file. */
  lemma UnlinkedDirOk(fs: Fs, d: nat, k: nat, past: Past, i: nat)
    requires CanUnlink(fs, d, k) && i < INODES && i in fs.ibits && IsDir(fs, i) && i != Target(fs, d, k)
    ensures Shape(Unlinked(fs, d, k, past)) && DirOk(Unlinked(fs, d, k, past), i)
  {
    hide Shape, CanUnlink, Target, Unlinked, Listing, EntryOk, UniqueNames;
    UnlinkedNames(fs, d, k, past, i);
    UnlinkedEntries(fs, d, k, past, i);
  }

  lemma UnlinkedNames(fs: Fs, d: nat, k: nat, past: Past, i: nat)
    requires CanUnlink(fs, d, k) && i < INODES && i in fs.ibits && IsDir(fs, i) && i != Target(fs, d, k)
    ensures var fs' := Unlinked(fs, d, k, past);
            && Shape(fs') && |fs'.inodes| == INODES && fs'.inodes[i].size % ENTRY_BYTES == 0
            && UniqueNames(Listing(fs', i))
  {
    hide RootOk, BitsOk, BlocksOk, DirsOk, ParentsOk, ReachOk, FdsOk, InodeShape, Unlinked, Listing, EntryOk, Target,
         UniqueNames;
    UnlinkedListing(fs, d, k, past, i);
    DirIsOk(fs, i);
    if i == d {
      FindNameWithout(Listing(fs, i), k, []);
      OneEntryLess(fs.inodes[d].size, Unlinked(fs, d, k, past).inodes[d].size);
    }
  }

  lemma OneEntryLess(size: nat, less: nat)
    requires size % ENTRY_BYTES == 0 && size == less + ENTRY_BYTES
    ensures less % ENTRY_BYTES == 0
  {
    assert less == ENTRY_BYTES * (size / ENTRY_BYTES - 1);
  }

  lemma UnlinkedEntries(fs: Fs, d: nat, k: nat, past: Past, i: nat)
    requires CanUnlink(fs, d, k) && i < INODES && i in fs.ibits && IsDir(fs, i) && i != Target(fs, d, k)
    ensures var fs' := Unlinked(fs, d, k, past);
            && Shape(fs')
            && forall j: nat :: j < |Listing(fs', i)| ==> EntryOk(fs', i, Listing(fs', i)[j])
  {
    hide RootOk, BitsOk, BlocksOk, DirsOk, ParentsOk, ReachOk, FdsOk, InodeShape, Unlinked, Listing, EntryOk, Target;
    var fs' := Unlinked(fs, d, k, past);
    UnlinkedListing(fs, d, k, past, i);
    DirIsOk(fs, i);
    hide DirOk, Without;
    var es, es' := Listing(fs, i), Listing(fs', i);
    forall j: nat | j < |es'|
      ensures EntryOk(fs', i, es'[j])
    {
      var m := WithoutAt(es, es', i == d, k, j);
      UnlinkedEntryOk(fs, d, k, past, i, m);
    }
  }

  /** Where an entry was before one was removed. */
  lemma WithoutAt(es: seq<DirEntry>, es': seq<DirEntry>, removed: bool, k: nat, j: nat) returns (m: nat)
    requires j < |es'| && (removed ==> k < |es|) && es' == if removed then Without(es, k) else es
    ensures m < |es| && es'[j] == es[m] && (removed ==> m != k)
  {
    m := if removed && k <= j then j + 1 else j;
  }

  lemma UnlinkedEntryOk(fs: Fs, d: nat, k: nat, past: Past, i: nat, m: nat)
    requires CanUnlink(fs, d, k) && i < INODES && IsDir(fs, i) && m < |Listing(fs, i)| && (i != d || m != k)
    ensures Shape(Unlinked(fs, d, k, past)) && EntryOk(Unlinked(fs, d, k, past), i, Listing(fs, i)[m])
  {
    hide RootOk, BitsOk, BlocksOk, DirsOk, ParentsOk, ReachOk, FdsOk, Unlinked, Listing;
    DirIsOk(fs, i);
    DirIsOk(fs, d);
    var e, t := Listing(fs, i)[m], Listing(fs, d)[k];
    assert EntryOk(fs, i, e) && EntryOk(fs, d, t);
    assert e.ino != t.ino;
    UnlinkedListing(fs, d, k, past, e.ino);
    UnlinkedShape(fs, d, k, past);
  }

  lemma UnlinkedDirs(fs: Fs, d: nat, k: nat, past: Past)
    requires CanUnlink(fs, d, k)
    ensures Shape(Unlinked(fs, d, k, past)) && DirsOk(Unlinked(fs, d, k, past))
  {
    hide RootOk, BlocksOk, DirsOk, DirOk, ParentsOk, ReachOk, FdsOk, Unlinked, Listing, Target;
    var fs' := Unlinked(fs, d, k, past);
    UnlinkedShape(fs, d, k, past);
    forall i: nat | i < INODES && IsDir(fs', i)
      ensures DirOk(fs', i)
    {
      UnlinkedListing(fs, d, k, past, i);
      UnlinkedDirOk(fs, d, k, past, i);
    }
    DirsFrom(fs');
  }

  lemma UnlinkedParents(fs: Fs, d: nat, k: nat, past: Past)
    requires CanUnlink(fs, d, k)
    ensures Shape(Unlinked(fs, d, k, past)) && ParentsOk(Unlinked(fs, d, k, past))
  {
    hide RootOk, BlocksOk, DirsOk, ReachOk, FdsOk, Unlinked, Listing, Target, CanUnlink, Mentions;
    var fs' := Unlinked(fs, d, k, past);
    UnlinkedShape(fs, d, k, past);
    forall i: nat | i in fs'.ibits && 0 < i < INODES
      ensures IsDir(fs', fs'.inodes[i].parent) && Mentions(Listing(fs', fs'.inodes[i].parent), i)
    {
      UnlinkedParent(fs, d, k, past, i);
    }
  }

  lemma UnlinkedParent(fs: Fs, d: nat, k: nat, past: Past, i: nat)
    requires CanUnlink(fs, d, k) && i in fs.ibits && 0 < i < INODES && i != Target(fs, d, k)
    ensures var fs' := Unlinked(fs, d, k, past);
            && Shape(fs') && IsDir(fs', fs'.inodes[i].parent)
            && Mentions(Listing(fs', fs'.inodes[i].parent), i)
  {
    hide RootOk, BitsOk, BlocksOk, DirsOk, ParentsOk, ReachOk, FdsOk, InodeShape, Unlinked, Listing, Target,
         CanUnlink;
    var m := ParentEntry(fs, d, k, i);
    var fs', q := Unlinked(fs, d, k, past), fs.inodes[i].parent;
    UnlinkedShape(fs, d, k, past);
    UnlinkedListing(fs, d, k, past, q);
    UnlinkedListing(fs, d, k, past, i);
    assert Listing(fs', q)[if q == d && k < m then m - 1 else m].ino == i;
  }

  /** The entry of an inode that stays. */
  lemma ParentEntry(fs: Fs, d: nat, k: nat, i: nat) returns (m: nat)
    requires CanUnlink(fs, d, k) && i in fs.ibits && 0 < i < INODES && i != Target(fs, d, k)
    ensures var q := fs.inodes[i].parent;
            && Shape(fs) && q < INODES && q in fs.ibits && q != Target(fs, d, k) && IsDir(fs, q) && HasBlock(fs, q)
            && m < |Listing(fs, q)| && Listing(fs, q)[m].ino == i && k < |Listing(fs, d)| && (q == d ==> m != k)
  {
    hide RootOk, BitsOk, BlocksOk, DirsOk, ReachOk, FdsOk, Listing, Target;
    var q := fs.inodes[i].parent;
    TargetIsFile(fs, d, k);
    TargetEntry(fs, d, k);
    m :| m < |Listing(fs, q)| && Listing(fs, q)[m].ino == i;
  }

  lemma TargetEntry(fs: Fs, d: nat, k: nat)
    requires CanUnlink(fs, d, k)
    ensures k < |Listing(fs, d)| && Listing(fs, d)[k].ino == Target(fs, d, k)
  {
    hide RootOk, BitsOk, BlocksOk, DirsOk, ParentsOk, ReachOk, FdsOk, Listing;
  }

  lemma UnlinkedReach(fs: Fs, d: nat, k: nat, past: Past)
    requires CanUnlink(fs, d, k)
    ensures Shape(Unlinked(fs, d, k, past)) && ReachOk(Unlinked(fs, d, k, past))
  {
    hide RootOk, BitsOk, BlocksOk, DirsOk, ParentsOk, FdsOk, Unlinked, Listing, Resolve, Target;
    var fs' := Unlinked(fs, d, k, past);
    UnlinkedShape(fs, d, k, past);
    assert Reached(fs, d);
    var pd: Path :| Resolve(fs, pd) == Some(d);
    TargetPath(fs, d, pd, k);
    forall i: nat | i in fs'.ibits
      ensures Reached(fs', i)
    {
      assert Reached(fs, i);
      var p: Path :| Resolve(fs, p) == Some(i);
      ResolveUnlinked(fs, d, pd, k, past, p);
    }
  }

  lemma UnlinkKeeps(fs: Fs, d: nat, k: nat, past: Past)
    requires CanUnlink(fs, d, k)
    ensures Inv(Unlinked(fs, d, k, past))
  {
    hide RootOk, BitsOk, BlocksOk, DirsOk, ParentsOk, ReachOk, FdsOk, Unlinked, Listing;
    UnlinkedShape(fs, d, k, past);
    UnlinkedBlocks(fs, d, k, past);
    UnlinkedDirs(fs, d, k, past);
    UnlinkedParents(fs, d, k, past);
    UnlinkedReach(fs, d, k, past);
  }

  // ----------------------------------------------- descriptors and contents

  /** Steps that touch neither names nor the inode table: open, close and read. */
  lemma DescriptorsKeep(fs: Fs, fs': Fs)
    requires Inv(fs) && fs' == fs.(fds := fs'.fds, fdbits := fs'.fdbits)
    requires |fs'.fds| == DESCRIPTORS && FdsOk(fs') && forall f: nat :: f in fs'.fdbits ==> f < DESCRIPTORS
    ensures Inv(fs') && SameDirs(fs, fs')
    ensures forall p: Path :: Resolve(fs', p) == Resolve(fs, p)
  {
    hide DirsOk, ReachOk, ParentsOk, Entries;
    assert SameDirs(fs, fs');
    assert forall j: nat :: HasBlock(fs', j) <==> HasBlock(fs, j);
    forall p: Path
      ensures Resolve(fs', p) == Resolve(fs, p)
    {
      ResolveSame(fs, fs', p);
    }
    SameNames(fs, fs');
  }

  /** `fs'` differs from `fs` in the size and the bytes of one live normal file at most. */
  ghost predicate FileChanged(fs: Fs, fs': Fs, i: nat)
    requires Shape(fs) && Shape(fs') && i < INODES
  {
    && i in fs.ibits && fs.inodes[i].ftype == NORMAL
    && fs'.super == fs.super && fs'.ibits == fs.ibits && fs'.dbits == fs.dbits && fs'.fdbits == fs.fdbits
    && |fs'.disk| == |fs.disk|
    && fs'.inodes == fs.inodes[i := fs.inodes[i].(size := fs'.inodes[i].size)]
    && forall b: nat :: b < |fs.disk| && b != fs.inodes[i].block ==> fs'.disk[b] == fs.disk[b]
  }

  lemma FileChangedDirs(fs: Fs, fs': Fs, i: nat)
    requires Inv(fs) && Shape(fs') && i < INODES && FileChanged(fs, fs', i)
    ensures SameDirs(fs, fs')
    ensures forall p: Path :: Resolve(fs', p) == Resolve(fs, p)
  {
    hide DirsOk, ReachOk, ParentsOk, FdsOk, Entries;
    assert HasBlock(fs, i);
    forall j: nat | j < INODES
      ensures IsDir(fs', j) <==> IsDir(fs, j)
      ensures IsDir(fs, j) ==> Listing(fs', j) == Listing(fs, j)
    {
      if IsDir(fs, j) {
        assert HasBlock(fs, j) && j != i;
      }
    }
    forall p: Path
      ensures Resolve(fs', p) == Resolve(fs, p)
    {
      ResolveSame(fs, fs', p);
    }
  }

  /** Directories with the same listings, over inodes that differ in file sizes only. */
  lemma SameNames(fs: Fs, fs': Fs)
    requires Inv(fs) && Shape(fs') && SameDirs(fs, fs') && fs'.ibits == fs.ibits
    requires forall j: nat :: j < INODES ==> fs'.inodes[j] == fs.inodes[j].(size := fs'.inodes[j].size)
    requires forall j: nat :: j < INODES && IsDir(fs, j) ==> fs'.inodes[j] == fs.inodes[j]
    requires forall p: Path :: Resolve(fs', p) == Resolve(fs, p)
    ensures DirsOk(fs') && ParentsOk(fs') && ReachOk(fs') && RootOk(fs')
  {
    hide Listing, Resolve, BlocksOk, FdsOk;
    forall d: nat | d < INODES && IsDir(fs', d)
      ensures DirOk(fs', d)
    {
      assert DirOk(fs, d);
      forall k: nat | k < |Listing(fs', d)|
        ensures EntryOk(fs', d, Listing(fs', d)[k])
      {
        assert EntryOk(fs, d, Listing(fs, d)[k]);
      }
    }
    forall i: nat | i in fs.ibits
      ensures Reached(fs', i)
    {
      assert Reached(fs, i);
      var p: Path :| Resolve(fs, p) == Some(i);
      assert Resolve(fs', p) == Some(i);
    }
  }

  lemma FileChangedKeeps(fs: Fs, fs': Fs, i: nat)
    requires Inv(fs) && Shape(fs') && i < INODES && FileChanged(fs, fs', i) && FdsOk(fs')
    ensures Inv(fs')
  {
    hide DirsOk, ReachOk, ParentsOk, FdsOk, Listing;
    FileChangedDirs(fs, fs', i);
    SameNames(fs, fs');
    assert forall j: nat :: HasBlock(fs', j) <==> HasBlock(fs, j);
  }

  // ------------------------------------------------- what the invariant says

  /** Slot `k` of directory `d` names inode `i`. */
  ghost predicate ListedAt(fs: Fs, d: nat, k: nat, i: nat)
    requires Shape(fs)
  {
    d < INODES && IsDir(fs, d) && k < |Listing(fs, d)| && Listing(fs, d)[k].ino == i
  }

  /** A live inode other than the root has exactly one directory entry, and it is in the
      directory that the inode names as its parent. */
  lemma OneEntry(fs: Fs, i: nat)
    requires Inv(fs) && i in fs.ibits && i != 0
    ensures i < INODES && exists k: nat :: ListedAt(fs, fs.inodes[i].parent, k, i)
    ensures forall d: nat, k: nat, e: nat, j: nat ::
              ListedAt(fs, d, k, i) && ListedAt(fs, e, j, i) ==> d == e == fs.inodes[i].parent && k == j
  {
    hide BlocksOk, ReachOk, FdsOk, Listing;
    var q := fs.inodes[i].parent;
    var m: nat :| m < |Listing(fs, q)| && Listing(fs, q)[m].ino == i;
    assert ListedAt(fs, q, m, i);
    forall d: nat, k: nat | ListedAt(fs, d, k, i)
      ensures d == q && Listing(fs, d)[k].name == fs.inodes[i].name
    {
      assert DirOk(fs, d) && EntryOk(fs, d, Listing(fs, d)[k]);
    }
    forall d: nat, k: nat, e: nat, j: nat | ListedAt(fs, d, k, i) && ListedAt(fs, e, j, i)
      ensures k == j
    {
      assert DirOk(fs, q);
    }
  }
}
