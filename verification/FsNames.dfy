/** The name tree: which inode each path leads to, and how the steps that add and remove
    a directory entry change that. */
module FsNames {
  import opened Common
  import opened Memory
  import opened Bitmap
  import opened Layout
  import opened FsState

  /** A path that resolves ends in an entry of the directory before it. */
  lemma ResolveLast(fs: Fs, p: Path, i: nat)
    requires Inv(fs) && p != [] && Resolve(fs, p) == Some(i)
    ensures 0 < i < INODES && i in fs.ibits
    ensures Resolve(fs, p[..|p| - 1]) == Some(fs.inodes[i].parent)
    ensures IsDir(fs, fs.inodes[i].parent)
    ensures fs.inodes[i].name == p[|p| - 1]
  {
    hide ReachOk, ParentsOk, BlocksOk, FdsOk;
    var d := Resolve(fs, p[..|p| - 1]).value;
    assert DirOk(fs, d);
    FindNameIs(Listing(fs, d), p[|p| - 1]);
    var k: nat :| k < |Listing(fs, d)| && Listing(fs, d)[k] == DirEntry(p[|p| - 1], i);
    assert EntryOk(fs, d, Listing(fs, d)[k]);
  }

  lemma ResolveLive(fs: Fs, p: Path, i: nat)
    requires Inv(fs) && Resolve(fs, p) == Some(i)
    ensures i < INODES && i in fs.ibits
  {
    hide ReachOk, ParentsOk, BlocksOk, FdsOk, DirsOk;
    if p != [] {
      ResolveLast(fs, p, i);
    }
  }

  /** No inode has two paths. */
  lemma {:induction false} ResolveInjective(fs: Fs, p: Path, q: Path, i: nat)
    requires Inv(fs) && Resolve(fs, p) == Some(i) && Resolve(fs, q) == Some(i)
    ensures p == q
  {
    hide RootOk, BitsOk, BlocksOk, DirsOk, ParentsOk, ReachOk, FdsOk, Resolve;
    if p != [] {
      ResolveLast(fs, p, i);
    }
    if q != [] {
      ResolveLast(fs, q, i);
    }
    if p != [] && q != [] {
      ResolveInjective(fs, p[..|p| - 1], q[..|q| - 1], fs.inodes[i].parent);
      assert p == p[..|p| - 1] + [p[|p| - 1]];
      assert q == q[..|q| - 1] + [q[|q| - 1]];
    } else {
      ResolveRoot(fs);
    }
  }

  /** Only the empty path leads to the root, and it leads nowhere else. */
  lemma ResolveRoot(fs: Fs)
    requires Inv(fs)
    ensures Resolve(fs, []) == Some(0)
    ensures forall p :: Resolve(fs, p) == Some(0) ==> p == []
  {
    hide RootOk, BitsOk, BlocksOk, DirsOk, ParentsOk, ReachOk, FdsOk;
    forall p | p != []
      ensures Resolve(fs, p) != Some(0)
    {
      hide Resolve;
      if Resolve(fs, p).Some? {
        ResolveLast(fs, p, Resolve(fs, p).value);
      }
    }
  }

  /** The two states have the same directories with the same listings. */
  ghost predicate SameDirs(fs: Fs, fs': Fs)
    requires Shape(fs) && Shape(fs')
  {
    forall i: nat :: i < INODES ==>
      (IsDir(fs', i) <==> IsDir(fs, i)) && (IsDir(fs, i) ==> Listing(fs', i) == Listing(fs, i))
  }

  lemma {:induction false} ResolveSame(fs: Fs, fs': Fs, p: Path)
    requires Shape(fs) && Shape(fs') && SameDirs(fs, fs')
    ensures Resolve(fs', p) == Resolve(fs, p)
  {
    hide Shape, Listing;
    if p != [] {
      ResolveSame(fs, fs', p[..|p| - 1]);
    }
  }

  // --------------------------------------------------------------- create

  /** A free inode, a free block on the disk unless the file is special, and a spare slot
      in the directory. */
  ghost predicate HasRoom(fs: Fs, d: nat, ftype: byte)
    requires Shape(fs) && d < INODES
  {
    && FirstClear(fs.ibits) < INODES
    && (ftype != SPECIAL ==> FirstClear(fs.dbits) < |fs.disk|)
    && fs.inodes[d].size / ENTRY_BYTES < DIR_FILE_COUNT_MAX
  }

  /** create, mkdir and the system files share this step: a new inode, linked under `name`. */
  ghost predicate CanCreate(fs: Fs, d: nat, name: seq<byte>, ftype: byte) {
    && Inv(fs) && d < INODES && IsDir(fs, d) && IsName(name) && ftype <= SPECIAL
    && Lookup(fs, d, name) == None
    && HasRoom(fs, d, ftype)
  }

  ghost function Created(fs: Fs, d: nat, name: seq<byte>, ftype: byte): Fs
    requires CanCreate(fs, d, name, ftype)
  {
    NewInodeShape(fs, d, name, ftype);
    LinkFile(NewInode(fs, d, name, ftype), d, FirstClear(fs.ibits))
  }

  lemma NewInodeShape(fs: Fs, d: nat, name: seq<byte>, ftype: byte)
    requires CanCreate(fs, d, name, ftype)
    ensures Shape(NewInode(fs, d, name, ftype))
    ensures d != FirstClear(fs.ibits)
  {
    hide BlocksOk, DirsOk, ParentsOk, ReachOk, FdsOk, Lookup;
  }

  lemma CreatedShape(fs: Fs, d: nat, name: seq<byte>, ftype: byte)
    requires CanCreate(fs, d, name, ftype)
    ensures Shape(Created(fs, d, name, ftype))
  {
    hide RootOk, BitsOk, BlocksOk, ParentsOk, ReachOk, FdsOk, Lookup, Linked, Listing, UniqueNames;
    NewInodeShape(fs, d, name, ftype);
    assert DirOk(fs, d);
    var fs' := Created(fs, d, name, ftype);
    forall i: nat | i < INODES
      ensures InodeShape(fs'.inodes[i], |fs'.disk|)
    {
      assert InodeShape(NewInode(fs, d, name, ftype).inodes[i], |fs.disk|);
    }
  }

  /** Creation appends to one listing, starts the new inode empty, and leaves every other
      live inode's type and bytes alone. */
  lemma CreatedListing(fs: Fs, d: nat, name: seq<byte>, ftype: byte, i: nat)
    requires CanCreate(fs, d, name, ftype) && i in fs.ibits
    ensures Shape(Created(fs, d, name, ftype))
    ensures var fs', ino := Created(fs, d, name, ftype), FirstClear(fs.ibits);
            && i < INODES && i != ino
            && fs'.inodes[i] == (if i == d then fs.inodes[d].(size := fs.inodes[d].size + ENTRY_BYTES)
                                 else fs.inodes[i])
            && (HasBlock(fs, i) && i != d ==> fs'.disk[fs'.inodes[i].block] == fs.disk[fs.inodes[i].block])
            && (HasBlock(fs, i) ==>
                  Listing(fs', i) == (if i == d then Listing(fs, d) + [DirEntry(name, ino)] else Listing(fs, i)))
  {
    hide RootOk, DirsOk, ParentsOk, ReachOk, FdsOk, Lookup, Linked, Entries;
    CreatedShape(fs, d, name, ftype);
    var ino := FirstClear(fs.ibits);
    if i == d {
      var b := fs.inodes[d].block;
      LinkAppends(fs.disk[b], fs.inodes[d].size / ENTRY_BYTES, name, ino);
    }
  }

  /** The new inode is live, has the requested type and an empty listing. */
  lemma CreatedNew(fs: Fs, d: nat, name: seq<byte>, ftype: byte)
    requires CanCreate(fs, d, name, ftype)
    ensures Shape(Created(fs, d, name, ftype))
    ensures var fs', ino := Created(fs, d, name, ftype), FirstClear(fs.ibits);
            && ino in fs'.ibits && ino !in fs.ibits && ino < INODES
            && fs'.inodes[ino] == Inode(name, ftype, if ftype == SPECIAL then 0 else FirstClear(fs.dbits), 0, d)
            && Listing(fs', ino) == []
  {
    hide RootOk, BitsOk, BlocksOk, DirsOk, ParentsOk, ReachOk, FdsOk, Lookup, Linked;
    CreatedShape(fs, d, name, ftype);
  }

  /** The lookups of an existing directory after a creation. */
  lemma LookupCreated(fs: Fs, d: nat, name: seq<byte>, ftype: byte, i: nat, n: seq<byte>)
    requires CanCreate(fs, d, name, ftype) && i < INODES && IsDir(fs, i)
    ensures Shape(Created(fs, d, name, ftype)) && IsDir(Created(fs, d, name, ftype), i)
    ensures Lookup(Created(fs, d, name, ftype), i, n) ==
            if i == d && n == name then Some(FirstClear(fs.ibits)) else Lookup(fs, i, n)
  {
    hide RootOk, BitsOk, BlocksOk, ParentsOk, ReachOk, FdsOk, Created, Listing;
    CreatedListing(fs, d, name, ftype, i);
    IbitsCreated(fs, d, name, ftype);
    if i == d {
      assert DirOk(fs, d);
      FindNameIs(Listing(fs, d), name);
      FindNameAppend(Listing(fs, d), DirEntry(name, FirstClear(fs.ibits)), n);
    }
  }

  lemma IbitsCreated(fs: Fs, d: nat, name: seq<byte>, ftype: byte)
    requires CanCreate(fs, d, name, ftype)
    ensures Created(fs, d, name, ftype).ibits == fs.ibits + {FirstClear(fs.ibits)}
    ensures Created(fs, d, name, ftype).dbits == fs.dbits + (if ftype == SPECIAL then {} else {FirstClear(fs.dbits)})
    ensures Created(fs, d, name, ftype).fdbits == fs.fdbits && Created(fs, d, name, ftype).fds == fs.fds
    ensures |Created(fs, d, name, ftype).disk| == |fs.disk|
    ensures SuperOk(fs.super) ==> SuperOk(Created(fs, d, name, ftype).super)
  {
    hide RootOk, BitsOk, BlocksOk, DirsOk, ParentsOk, ReachOk, FdsOk, Lookup, Linked;
    CreatedShape(fs, d, name, ftype);
  }

  lemma ResolveEmpty(fs: Fs)
    requires Shape(fs)
    ensures Resolve(fs, []) == Some(0)
  {
  }

  /** One step of the resolution of a path. */
  lemma ResolveUnfold(fs: Fs, p: Path)
    requires Shape(fs) && p != []
    ensures Resolve(fs, p) ==
            match Resolve(fs, p[..|p| - 1])
            case None => None
            case Some(d) => if d < INODES && IsDir(fs, d) then Lookup(fs, d, p[|p| - 1]) else None
  {
    hide Shape, Lookup;
  }

  /** Creation adds exactly the new path; every other path leads where it did. */
  lemma {:induction false} ResolveCreated(fs: Fs, d: nat, pd: Path, name: seq<byte>, ftype: byte, p: Path)
    requires CanCreate(fs, d, name, ftype) && Resolve(fs, pd) == Some(d)
    ensures Shape(Created(fs, d, name, ftype))
    ensures Resolve(Created(fs, d, name, ftype), p) ==
            if p == pd + [name] then Some(FirstClear(fs.ibits)) else Resolve(fs, p)
  {
    hide RootOk, BitsOk, BlocksOk, DirsOk, ParentsOk, ReachOk, FdsOk, Shape, Resolve, Created, Lookup, Listing,
         CanCreate;
    var fs' := Created(fs, d, name, ftype);
    CreatedShape(fs, d, name, ftype);
    CreatedLookups(fs, d, pd, name, ftype);
    if p == [] {
      ResolveEmpty(fs);
      ResolveEmpty(fs');
    } else {
      var init, last := p[..|p| - 1], p[|p| - 1];
      assert p == init + [last];
      ResolveCreated(fs, d, pd, name, ftype, init);
      ResolveUnfold(fs, p);
      ResolveUnfold(fs', p);
      if init == pd + [name] {
        ResolveUnfold(fs, init);
        assert init[..|init| - 1] == pd && init[|init| - 1] == name;
      } else if Resolve(fs, init).Some? {
        var i := Resolve(fs, init).value;
        ResolveLive(fs, init, i);
        CreatedTypes(fs, d, name, ftype, i, last);
        if i == d {
          ResolveInjective(fs, init, pd, d);
        }
      }
    }
  }

  /** The new inode has no children, and the name was free. */
  lemma CreatedLookups(fs: Fs, d: nat, pd: Path, name: seq<byte>, ftype: byte)
    requires CanCreate(fs, d, name, ftype) && Resolve(fs, pd) == Some(d)
    ensures Shape(fs) && Inv(fs) && Lookup(fs, d, name) == None && d < INODES && IsDir(fs, d)
    ensures Shape(Created(fs, d, name, ftype)) && FirstClear(fs.ibits) < INODES
    ensures forall n :: Lookup(Created(fs, d, name, ftype), FirstClear(fs.ibits), n) == None
  {
    hide RootOk, BitsOk, BlocksOk, DirsOk, ParentsOk, ReachOk, FdsOk, Created, Listing;
    CreatedNew(fs, d, name, ftype);
  }

  lemma CreatedTypes(fs: Fs, d: nat, name: seq<byte>, ftype: byte, i: nat, n: seq<byte>)
    requires CanCreate(fs, d, name, ftype) && i in fs.ibits && i < INODES
    ensures Shape(Created(fs, d, name, ftype)) && Shape(fs)
    ensures IsDir(Created(fs, d, name, ftype), i) <==> IsDir(fs, i)
    ensures IsDir(fs, i) ==>
            Lookup(Created(fs, d, name, ftype), i, n) ==
            if i == d && n == name then Some(FirstClear(fs.ibits)) else Lookup(fs, i, n)
  {
    hide RootOk, BitsOk, BlocksOk, DirsOk, ParentsOk, ReachOk, FdsOk, Created, Listing, Lookup;
    CreatedListing(fs, d, name, ftype, i);
    IbitsCreated(fs, d, name, ftype);
    if IsDir(fs, i) {
      LookupCreated(fs, d, name, ftype, i, n);
    }
  }

  // --------------------------------------------------------------- unlink

  /** A normal file that no descriptor holds open. */
  ghost predicate Removable(fs: Fs, ino: nat)
    requires Shape(fs)
  {
    && ino < INODES && fs.inodes[ino].ftype == NORMAL
    && forall f: nat :: f in fs.fdbits && f < DESCRIPTORS ==> fs.fds[f].inode != ino
  }

  /** unlink of the file at slot `k` of directory `d`. */
  ghost predicate CanUnlink(fs: Fs, d: nat, k: nat) {
    && Inv(fs) && d < INODES && IsDir(fs, d)
    && k < |Listing(fs, d)|
    && Removable(fs, Listing(fs, d)[k].ino)
  }

  ghost function Target(fs: Fs, d: nat, k: nat): (ino: nat)
    requires CanUnlink(fs, d, k)
    ensures 0 < ino < INODES && ino in fs.ibits && ino != d
  {
    assert DirOk(fs, d);
    assert EntryOk(fs, d, Listing(fs, d)[k]);
    Listing(fs, d)[k].ino
  }

  ghost function Unlinked(fs: Fs, d: nat, k: nat, past: Past): Fs
    requires CanUnlink(fs, d, k)
  {
    FreeInode(UnlinkFile(fs, d, k, past), Target(fs, d, k))
  }

  lemma UnlinkedShape(fs: Fs, d: nat, k: nat, past: Past)
    requires CanUnlink(fs, d, k)
    ensures var fs', ino := Unlinked(fs, d, k, past), Target(fs, d, k);
            && Shape(fs') && |fs'.disk| == |fs.disk|
            && fs'.ibits == fs.ibits - {ino} && fs'.dbits == fs.dbits - {fs.inodes[ino].block}
            && fs'.fdbits == fs.fdbits && fs'.fds == fs.fds && fs'.super == fs.super
  {
    hide RootOk, BitsOk, BlocksOk, DirsOk, ParentsOk, ReachOk, FdsOk, Shifted;
    var fs' := Unlinked(fs, d, k, past);
    forall i: nat | i < INODES
      ensures InodeShape(fs'.inodes[i], |fs'.disk|)
    {
      assert InodeShape(fs.inodes[i], |fs.disk|);
    }
  }

  /** Removal shortens one listing and leaves every other live inode alone. */
  lemma UnlinkedListing(fs: Fs, d: nat, k: nat, past: Past, i: nat)
    requires CanUnlink(fs, d, k) && i in fs.ibits && i != Target(fs, d, k)
    ensures Shape(Unlinked(fs, d, k, past))
    ensures var fs' := Unlinked(fs, d, k, past);
            && i < INODES
            && fs'.inodes[i] == (if i == d then fs.inodes[d].(size := fs.inodes[d].size - ENTRY_BYTES)
                                 else fs.inodes[i])
            && (HasBlock(fs, i) && i != d ==> fs'.disk[fs'.inodes[i].block] == fs.disk[fs.inodes[i].block])
            && (HasBlock(fs, i) ==>
                  Listing(fs', i) == (if i == d then Without(Listing(fs, d), k) else Listing(fs, i)))
  {
    hide RootOk, DirsOk, ParentsOk, ReachOk, FdsOk, Shifted, Entries;
    UnlinkedShape(fs, d, k, past);
    if i == d {
      UnlinkRemoves(fs.disk[fs.inodes[d].block], fs.inodes[d].size / ENTRY_BYTES, k, past);
    }
  }

  lemma DirIsOk(fs: Fs, i: nat)
    requires Inv(fs) && i < INODES && IsDir(fs, i)
    ensures DirOk(fs, i) && HasBlock(fs, i)
  {
    hide RootOk, BitsOk, BlocksOk, DirOk, ParentsOk, ReachOk, FdsOk;
  }

  lemma LookupUnlinked(fs: Fs, d: nat, k: nat, past: Past, i: nat, n: seq<byte>)
    requires CanUnlink(fs, d, k) && i in fs.ibits && i != Target(fs, d, k)
    ensures Shape(fs) && Shape(Unlinked(fs, d, k, past)) && i < INODES && k < |Listing(fs, d)|
    ensures IsDir(Unlinked(fs, d, k, past), i) <==> IsDir(fs, i)
    ensures IsDir(fs, i) ==>
            Lookup(Unlinked(fs, d, k, past), i, n) ==
            if i == d && n == Listing(fs, d)[k].name then None else Lookup(fs, i, n)
  {
    hide RootOk, BitsOk, BlocksOk, DirsOk, ParentsOk, ReachOk, FdsOk, InodeShape, Unlinked, Listing, EntryOk, Target,
         UniqueNames, FindName;
    UnlinkedListing(fs, d, k, past, i);
    UnlinkedShape(fs, d, k, past);
    if i == d {
      DirIsOk(fs, d);
      FindNameWithout(Listing(fs, d), k, n);
    }
  }

  /** Removal removes exactly the path of the file; every other path leads where it did. */
  lemma {:induction false} ResolveUnlinked(fs: Fs, d: nat, pd: Path, k: nat, past: Past, p: Path)
    requires CanUnlink(fs, d, k) && Resolve(fs, pd) == Some(d)
    ensures Shape(Unlinked(fs, d, k, past))
    ensures Resolve(Unlinked(fs, d, k, past), p) ==
            if p == pd + [Listing(fs, d)[k].name] then None else Resolve(fs, p)
  {
    hide RootOk, BitsOk, BlocksOk, DirsOk, ParentsOk, ReachOk, FdsOk, Unlinked, Lookup, Listing, CanUnlink, Target;
    UnlinkedShape(fs, d, k, past);
    TargetPath(fs, d, pd, k);
    var name := Listing(fs, d)[k].name;
    if p != [] {
      var init, last := p[..|p| - 1], p[|p| - 1];
      assert p == init + [last];
      ResolveUnlinked(fs, d, pd, k, past, init);
      if init != pd + [name] && Resolve(fs, init).Some? {
        var i := Resolve(fs, init).value;
        ResolveLive(fs, init, i);
        if i == Target(fs, d, k) {
          ResolveInjective(fs, init, pd + [name], i);
        }
        LookupUnlinked(fs, d, k, past, i, last);
        if i == d {
          ResolveInjective(fs, init, pd, d);
        }
      }
    }
  }

  /** The path of the file being removed, which is no directory. */
  lemma TargetPath(fs: Fs, d: nat, pd: Path, k: nat)
    requires CanUnlink(fs, d, k) && Resolve(fs, pd) == Some(d)
    ensures Inv(fs) && d < INODES && IsDir(fs, d) && k < |Listing(fs, d)|
    ensures Resolve(fs, pd + [Listing(fs, d)[k].name]) == Some(Target(fs, d, k))
    ensures !IsDir(fs, Target(fs, d, k))
  {
    hide RootOk, BitsOk, BlocksOk, ParentsOk, ReachOk, FdsOk, Listing, EntryOk;
    var es := Listing(fs, d);
    assert DirOk(fs, d);
    FindNameAt(es, k);
    assert Lookup(fs, d, es[k].name) == Some(Target(fs, d, k));
    hide Lookup, DirsOk, DirOk, UniqueNames, FindName, Target;
    var p := pd + [es[k].name];
    assert p[..|p| - 1] == pd && p[|p| - 1] == es[k].name;
  }
}
