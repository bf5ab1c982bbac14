/** What each call of the file system leaves behind, said without the functions that compute
    it: which bytes a read returns and a write changes, which inode, block and descriptor a
    call takes or gives back, and that no call writes the metadata blocks of the disk. */
module FsLaws {
  import opened Common
  import opened Memory
  import opened Bitmap
  import opened Layout
  import opened Paths
  import opened FsState
  import opened FsNames
  import opened FsInvariant
  import opened FsMachine
  import opened FsAbstract
  import opened FsBoot
  import opened Images

  // -------------------------------------------------------- read and write

  /** The bytes of an open file. */
  ghost function FileBytes(fs: Fs, fd: nat): (c: seq<byte>)
    requires Shape(fs) && OpenFile(fs, fd)
    ensures |c| == FileOf(fs, fd).size <= BLOCK_BYTES
  {
    assert InodeShape(FileOf(fs, fd), |fs.disk|);
    fs.disk[FileOf(fs, fd).block][..FileOf(fs, fd).size]
  }

  /** A read delivers the bytes at its cursor, as many as were asked for, or all that the file
      still has, and moves the cursor over them; nothing else changes. */
  lemma ReadLaw(fs: Fs, fd: nat, count: nat)
    requires Pre(fs, Read(fd, count))
    ensures var (fs', r) := Step(fs, Read(fd, count));
            var pos, c := fs.fds[fd].readPos, FileBytes(fs, fd);
            && r.Data?
            && var d := r.bytes;
            && |d| <= count && (|d| < count ==> pos + |d| >= |c|)
            && (if pos <= |c| then pos + |d| <= |c| && d == c[pos..pos + |d|] else d == [])
            && fs' == fs.(fds := fs.fds[fd := fs.fds[fd].(readPos := pos + |d|)])
  {
    hide RootOk, BitsOk, BlocksOk, DirsOk, ParentsOk, ReachOk, FdsOk;
    assert InodeShape(FileOf(fs, fd), |fs.disk|);
    ReadContent(fs, fd, count);
  }

  /** A write takes bytes from its data up to the end of the block, puts them at its cursor and
      moves the cursor over them; the size grows by their number wherever the cursor is. */
  ghost predicate Wrote(fs: Fs, fs': Fs, fd: nat, data: seq<byte>, n: nat)
    requires Shape(fs) && OpenFile(fs, fd)
  {
    var e, file := fs.fds[fd], FileOf(fs, fd);
    && n <= |data| && (n < |data| ==> e.writePos + n >= BLOCK_BYTES)
    && (n > 0 ==> e.writePos + n <= BLOCK_BYTES)
    && fs' == fs.(fds := fs.fds[fd := e.(writePos := e.writePos + n)],
                  inodes := fs.inodes[e.inode := file.(size := file.size + n)], disk := fs'.disk)
    && |fs'.disk| == |fs.disk| && file.block < |fs.disk|
    && (forall b: nat :: b < |fs.disk| && b != file.block ==> fs'.disk[b] == fs.disk[b])
    && forall j: nat :: j < BLOCK_BYTES ==>
         fs'.disk[file.block][j] ==
         if e.writePos <= j < e.writePos + n then data[j - e.writePos] else fs.disk[file.block][j]
  }

  lemma WriteLaw(fs: Fs, fd: nat, data: seq<byte>)
    requires Inv(fs) && OpenFile(fs, fd)
    ensures exists n: nat :: Wrote(fs, WriteFd(fs, fd, data), fd, data, n)
    ensures Pre(fs, Write(fd, data)) ==>
            && Step(fs, Write(fd, data)).1.Code? && Step(fs, Write(fd, data)).1.value >= 0
            && Wrote(fs, Step(fs, Write(fd, data)).0, fd, data, Step(fs, Write(fd, data)).1.value)
  {
    hide RootOk, BitsOk, BlocksOk, DirsOk, ParentsOk, ReachOk, FdsOk;
    assert InodeShape(FileOf(fs, fd), |fs.disk|);
    assert Wrote(fs, WriteFd(fs, fd, data), fd, data, WriteCount(fs.fds[fd].writePos, |data|));
  }

  // -------------------------------------------- create, open, close, unlink

  /** The path is not absolute, its parent is no directory of the tree, or it is taken. */
  ghost predicate CreateFails(fs: Fs, path: seq<byte>)
    requires Shape(fs)
  {
    !Absolute(path) || DirectoryAt(fs, Parent(FullPath(path))) == None || Resolve(fs, FullPath(path)).Some?
  }

  /** A file is added to directory `d`: the lowest free inode and, unless it is a special file,
      the lowest free block are taken; of the other inodes only the directory's grows, and of
      the disk only the directory's block changes. */
  ghost predicate Taken(fs: Fs, fs': Fs, d: nat, name: seq<byte>, ftype: byte, ino: nat) {
    && |fs.inodes| == |fs'.inodes| == INODES && ino < INODES
    && ino !in fs.ibits && (forall i: nat :: i < ino ==> i in fs.ibits) && fs'.ibits == fs.ibits + {ino}
    && var block := fs'.inodes[ino].block;
    && fs'.inodes[ino] == Inode(name, ftype, block, 0, d)
    && (if ftype == 2 then block == 0 && fs'.dbits == fs.dbits
        else block !in fs.dbits && (forall b: nat :: b < block ==> b in fs.dbits) && fs'.dbits == fs.dbits + {block})
    && (forall i: nat :: i < INODES && i != ino ==>
          fs'.inodes[i] == if i == d then fs.inodes[i].(size := fs.inodes[i].size + 36) else fs.inodes[i])
    && d < INODES && |fs'.disk| == |fs.disk|
    && (forall b: nat :: b < |fs.disk| && b != fs.inodes[d].block ==> fs'.disk[b] == fs.disk[b])
    && fs'.super == fs.super.(usedInodes := (fs.super.usedInodes + 1) % 0x1_0000_0000)
  }

  /** The lowest free descriptor is open at the start of inode `ino`. */
  ghost predicate Opened(fs: Fs, fs': Fs, name: seq<byte>, ino: nat, fd: nat) {
    && fd !in fs.fdbits && (forall f: nat :: f < fd ==> f in fs.fdbits)
    && fd < |fs.fds| && fs'.fdbits == fs.fdbits + {fd} && fs'.fds == fs.fds[fd := Fd(name, ino, 0, 0, fd)]
  }

  lemma CreatedTakes(fs: Fs, d: nat, name: seq<byte>, ftype: byte)
    requires CanCreate(fs, d, name, ftype)
    ensures Taken(fs, Created(fs, d, name, ftype), d, name, ftype, FirstClear(fs.ibits))
  {
    hide RootOk, BitsOk, BlocksOk, DirsOk, ParentsOk, ReachOk, FdsOk, Lookup, Linked;
    CreatedShape(fs, d, name, ftype);
  }

  /** create fails on exactly those paths, with -1 and no change; otherwise it adds exactly the
      path, takes one inode and its block, and opens the file if asked to. */
  lemma CreateLaw(fs: Fs, path: seq<byte>, ftype: byte, withFd: bool)
    requires Pre(fs, Create(path, ftype, withFd))
    ensures var (fs', r) := Step(fs, Create(path, ftype, withFd));
            && Inv(fs')
            && if CreateFails(fs, path) then fs' == fs && r == Code(-1)
               else
                 var p, d := FullPath(path), DirectoryAt(fs, Parent(FullPath(path))).value;
                 && Nodes(fs') ==
                    Nodes(fs)[p := if ftype == 0 then Directory else if ftype == 1 then File([]) else Device]
                 && exists ino: nat ::
                      && Taken(fs, fs', d, Leaf(p), ftype, ino)
                      && if withFd then r.Code? && r.value >= 0 && Opened(fs, fs', Leaf(p), ino, r.value)
                         else r == Code(0) && fs'.fds == fs.fds && fs'.fdbits == fs.fdbits
  {
    hide RootOk, BitsOk, BlocksOk, DirsOk, ParentsOk, ReachOk, FdsOk, Lookup, Resolve, Nodes, Handles, Created,
         FullPath, Strays, InTable, Seek, Taken, CanCreate;
    CreateRefines(fs, path, ftype, withFd);
    if Absolute(path) {
      var p := FullPath(path);
      assert p == Parent(p) + [Leaf(p)];
      SeekFollowsIff(fs, Parent(p));
      NodesDomain(fs, Parent(p));
      NodesDomain(fs, p);
      if DirectoryAt(fs, Parent(p)).Some? {
        var d := DirectoryAt(fs, Parent(p)).value;
        ResolveNext(fs, Parent(p), d, Leaf(p));
        if Lookup(fs, d, Leaf(p)) == None {
          CreateReady(fs, path, ftype, withFd, d);
          CreatedTakes(fs, d, Leaf(p), ftype);
          IbitsCreated(fs, d, Leaf(p), ftype);
          OpenKeepsTaken(fs, Created(fs, d, Leaf(p), ftype), d, Leaf(p), ftype, FirstClear(fs.ibits));
          assert Taken(fs, CreateStep(fs, path, ftype, withFd).0, d, Leaf(p), ftype, FirstClear(fs.ibits));
        }
      }
    }
  }

  lemma OpenKeepsTaken(fs: Fs, fs': Fs, d: nat, name: seq<byte>, ftype: byte, ino: nat)
    requires Taken(fs, fs', d, name, ftype, ino)
    ensures |fs'.fds| == DESCRIPTORS && FirstClear(fs'.fdbits) < DESCRIPTORS ==>
              Taken(fs, OpenFd(fs', ino, name), d, name, ftype, ino)
  {
  }

  /** open finds what the tree has at the path. */
  lemma OpenLaw(fs: Fs, path: seq<byte>)
    requires Pre(fs, Open(path))
    ensures var (fs', r) := Step(fs, Open(path));
            match Resolve(fs, FullPath(path))
            case None => fs' == fs && r == Code(-1)
            case Some(ino) =>
              && r.Code? && r.value >= 0 && Opened(fs, fs', Leaf(FullPath(path)), ino, r.value)
              && fs' == fs.(fds := fs'.fds, fdbits := fs'.fdbits)
  {
    hide RootOk, BitsOk, BlocksOk, DirsOk, ParentsOk, ReachOk, FdsOk, Lookup, Resolve, FullPath, Strays, InTable,
         Seek;
    var p := FullPath(path);
    assert p == Parent(p) + [Leaf(p)];
    SeekFollowsIff(fs, Parent(p));
    ResolveNext(fs, Parent(p), Seek(fs, Parent(p)).value, Leaf(p));
  }

  lemma CloseLaw(fs: Fs, fd: nat)
    requires Pre(fs, Close(fd))
    ensures Step(fs, Close(fd)).1 == Code(-1) && Step(fs, Close(fd)).0 == fs.(fdbits := fs.fdbits - {fd})
  {
  }

  /** unlink gives back the inode and the block of the file, and nothing else. */
  ghost predicate Returned(fs: Fs, fs': Fs, d: nat, ino: nat) {
    && |fs.inodes| == |fs'.inodes| == INODES && ino < INODES
    && fs'.ibits == fs.ibits - {ino} && fs'.dbits == fs.dbits - {fs.inodes[ino].block}
    && (forall i: nat :: i < INODES ==>
          if i == d then fs.inodes[i] == fs'.inodes[i].(size := fs'.inodes[i].size + 36)
          else fs'.inodes[i] == fs.inodes[i])
    && d < INODES && |fs'.disk| == |fs.disk|
    && (forall b: nat :: b < |fs.disk| && b != fs.inodes[d].block ==> fs'.disk[b] == fs.disk[b])
    && fs'.super == fs.super && fs'.fds == fs.fds && fs'.fdbits == fs.fdbits
  }

  lemma UnlinkedReturns(fs: Fs, d: nat, k: nat, past: Past)
    requires CanUnlink(fs, d, k)
    ensures Returned(fs, Unlinked(fs, d, k, past), d, Target(fs, d, k))
  {
    hide RootOk, BitsOk, BlocksOk, DirsOk, ParentsOk, ReachOk, FdsOk, Shifted, Listing;
    UnlinkedShape(fs, d, k, past);
    ListingSize(fs, d);
  }

  lemma ListingSize(fs: Fs, d: nat)
    requires Shape(fs) && d < INODES
    ensures |Listing(fs, d)| == fs.inodes[d].size / ENTRY_BYTES
  {
  }

  lemma UnlinkLaw(fs: Fs, path: seq<byte>, past: Past)
    requires Pre(fs, Unlink(path, past))
    ensures Absolute(path)
    ensures var (fs', r) := Step(fs, Unlink(path, past));
            var p := FullPath(path);
            && Inv(fs')
            && match Resolve(fs, p)
               case None => fs' == fs && r == Code(-1)
               case Some(ino) =>
                 && r == Code(0) && DirectoryAt(fs, Parent(p)).Some?
                 && Returned(fs, fs', DirectoryAt(fs, Parent(p)).value, ino)
                 && Nodes(fs') == imap q | q in Nodes(fs) && q != p :: Nodes(fs)[q]
  {
    hide RootOk, BitsOk, BlocksOk, DirsOk, ParentsOk, ReachOk, FdsOk, Lookup, Resolve, Nodes, Listing, FullPath,
         Strays, InTable, Seek, Unlinked, Returned, CanUnlink, Target, Removable;
    var p := FullPath(path);
    assert p == Parent(p) + [Leaf(p)];
    SeekFollowsIff(fs, Parent(p));
    var d := Seek(fs, Parent(p)).value;
    ResolveNext(fs, Parent(p), d, Leaf(p));
    UnlinkRefines(fs, path, past);
    NodesDomain(fs, p);
    match Lookup(fs, d, Leaf(p))
    case None =>
    case Some(ino) =>
      UnlinkReady(fs, path, d, ino);
      TargetEntry(fs, d, IndexOf(Listing(fs, d), ino));
      UnlinkedReturns(fs, d, IndexOf(Listing(fs, d), ino), past);
  }

  // ------------------------------------------------------------- conservation

  ghost predicate Owned(fs: Fs, b: nat)
    requires Shape(fs)
  {
    exists i: nat :: HasBlock(fs, i) && fs.inodes[i].block == b
  }

  /** No block is lost: every marked block above the root's belongs to a live file. */
  ghost predicate NoneLost(fs: Fs)
    requires Shape(fs)
  {
    forall b: nat :: b in fs.dbits && b > DATA_START ==> Owned(fs, b)
  }

  lemma OwnersStay(fs: Fs, fs': Fs)
    requires Shape(fs) && Shape(fs') && NoneLost(fs)
    requires forall b: nat :: b in fs'.dbits && b > DATA_START && b in fs.dbits ==>
               forall i: nat :: HasBlock(fs, i) && fs.inodes[i].block == b ==>
                 HasBlock(fs', i) && fs'.inodes[i].block == b
    requires forall b: nat :: b in fs'.dbits && b !in fs.dbits ==> Owned(fs', b)
    ensures NoneLost(fs')
  {
    hide InodeShape;
    forall b: nat | b in fs'.dbits && b > DATA_START
      ensures Owned(fs', b)
    {
      if b in fs.dbits {
        var i: nat :| HasBlock(fs, i) && fs.inodes[i].block == b;
        assert HasBlock(fs', i);
      }
    }
  }

  lemma TakenKeeps(fs: Fs, fs': Fs, d: nat, name: seq<byte>, ftype: byte, ino: nat)
    requires Shape(fs) && Shape(fs') && NoneLost(fs) && Taken(fs, fs', d, name, ftype, ino)
    ensures NoneLost(fs')
  {
    assert fs'.dbits != fs.dbits ==> HasBlock(fs', ino);
    OwnersStay(fs, fs');
  }

  lemma ReturnedKeeps(fs: Fs, fs': Fs, d: nat, ino: nat)
    requires Shape(fs) && Shape(fs') && NoneLost(fs) && Returned(fs, fs', d, ino)
    ensures NoneLost(fs')
  {
    OwnersStay(fs, fs');
  }

  /** Every call conserves the blocks. */
  lemma StepLosesNone(fs: Fs, op: Op)
    requires Pre(fs, op) && NoneLost(fs)
    ensures Inv(Step(fs, op).0) && NoneLost(Step(fs, op).0)
  {
    hide RootOk, BitsOk, BlocksOk, DirsOk, ParentsOk, ReachOk, FdsOk, InodeShape, CreatePre, UnlinkPre, PathOk,
         NoneLost, Step, Taken, Returned, Resolve, Nodes, FullPath;
    StepRefines(fs, op);
    var fs' := Step(fs, op).0;
    match op
    case Create(path, ftype, withFd) =>
      CreateLaw(fs, path, ftype, withFd);
      if !CreateFails(fs, path) {
        var p, d := FullPath(path), DirectoryAt(fs, Parent(FullPath(path))).value;
        var ino: nat :| Taken(fs, fs', d, Leaf(p), ftype, ino);
        TakenKeeps(fs, fs', d, Leaf(p), ftype, ino);
      }
    case Open(path) =>
      OpenLaw(fs, path);
      SameOwners(fs, fs');
    case Close(fd) =>
      CloseLaw(fs, fd);
      SameOwners(fs, fs');
    case Read(fd, count) =>
      ReadLaw(fs, fd, count);
      SameOwners(fs, fs');
    case Write(fd, data) =>
      WriteLaw(fs, fd, data);
      SameOwners(fs, fs');
    case Unlink(path, past) =>
      UnlinkLaw(fs, path, past);
      if Resolve(fs, FullPath(path)).Some? {
        ReturnedKeeps(fs, fs', DirectoryAt(fs, Parent(FullPath(path))).value, Resolve(fs, FullPath(path)).value);
      }
  }

  lemma SameOwners(fs: Fs, fs': Fs)
    requires Shape(fs) && Shape(fs') && NoneLost(fs) && fs'.ibits == fs.ibits && fs'.dbits == fs.dbits
    requires forall i: nat :: i < INODES ==>
               fs'.inodes[i].block == fs.inodes[i].block && fs'.inodes[i].ftype == fs.inodes[i].ftype
    ensures NoneLost(fs')
  {
    OwnersStay(fs, fs');
  }

  // ----------------------------------------------------------------- metadata

  ghost predicate SameMetadata(fs: Fs, fs': Fs) {
    && |fs'.disk| == |fs.disk|
    && forall b: nat :: b < DATA_START && b < |fs.disk| ==> fs'.disk[b] == fs.disk[b]
  }

  lemma CreatedMetadata(fs: Fs, d: nat, name: seq<byte>, ftype: byte)
    requires CanCreate(fs, d, name, ftype)
    ensures SameMetadata(fs, Created(fs, d, name, ftype))
  {
    hide RootOk, BitsOk, DirsOk, ParentsOk, ReachOk, FdsOk, Lookup, Linked;
    assert HasBlock(fs, d);
  }

  lemma UnlinkedMetadata(fs: Fs, d: nat, k: nat, past: Past)
    requires CanUnlink(fs, d, k)
    ensures SameMetadata(fs, Unlinked(fs, d, k, past))
  {
    hide RootOk, BitsOk, DirsOk, ParentsOk, ReachOk, FdsOk, Listing, Shifted;
    assert HasBlock(fs, d);
  }

  lemma CreateMetadata(fs: Fs, path: seq<byte>, ftype: byte, withFd: bool)
    requires Pre(fs, Create(path, ftype, withFd))
    ensures SameMetadata(fs, CreateStep(fs, path, ftype, withFd).0)
  {
    hide RootOk, BitsOk, BlocksOk, DirsOk, ParentsOk, ReachOk, FdsOk, Lookup, Resolve, Created, FullPath, Strays,
         InTable, Seek, CanCreate;
    if Absolute(path) && Seek(fs, Parent(FullPath(path))).Some? {
      var d := Seek(fs, Parent(FullPath(path))).value;
      SeekFollowsIff(fs, Parent(FullPath(path)));
      if d < INODES && Lookup(fs, d, Leaf(FullPath(path))) == None {
        CreateReady(fs, path, ftype, withFd, d);
        CreatedMetadata(fs, d, Leaf(FullPath(path)), ftype);
      }
    }
  }

  lemma UnlinkMetadata(fs: Fs, path: seq<byte>, past: Past)
    requires Pre(fs, Unlink(path, past))
    ensures SameMetadata(fs, UnlinkStep(fs, path, past).0)
  {
    hide RootOk, BitsOk, BlocksOk, DirsOk, ParentsOk, ReachOk, FdsOk, Lookup, Resolve, Unlinked, FullPath, Strays,
         InTable, CanUnlink, Removable, Listing;
    var d := Seek(fs, Parent(FullPath(path))).value;
    match Lookup(fs, d, Leaf(FullPath(path)))
    case None =>
    case Some(ino) =>
      UnlinkReady(fs, path, d, ino);
      UnlinkedMetadata(fs, d, IndexOf(Listing(fs, d), ino), past);
  }

  /** No call writes the blocks that hold the super block, the bitmaps and the inode table. */
  lemma MetadataStays(fs: Fs, op: Op)
    requires Pre(fs, op)
    ensures SameMetadata(fs, Step(fs, op).0)
  {
    hide RootOk, BitsOk, DirsOk, ParentsOk, ReachOk, CreatePre, UnlinkPre, PathOk, CreateStep, UnlinkStep, Lookup,
         Written;
    match op
    case Create(path, ftype, withFd) => CreateMetadata(fs, path, ftype, withFd);
    case Open(path) =>
    case Close(fd) =>
    case Read(fd, count) =>
    case Write(fd, data) =>
      assert HasBlock(fs, fs.fds[fd].inode);
    case Unlink(path, past) => UnlinkMetadata(fs, path, past);
  }

  // --------------------------------------------------------------------- runs

  /** In every state of every run from a formatted disk on no block is lost: the marked blocks
      are those of the metadata and the root, and those that live files own. */
  lemma {:induction false} RunLosesNone(disk: seq<Block>, diskSize: nat, junk: Block,
                                        states: seq<Fs>, events: seq<Event>, results: seq<Result>, n: nat)
    requires DATA_START + 1 < |disk| <= BITMAP_BITS && diskSize < WORD_LIMIT * WORD_LIMIT
    requires Run(states, events, results) && states[0] == FormattedFs(disk, diskSize, junk) && n <= |events|
    ensures Inv(states[n]) && NoneLost(states[n])
    decreases n
  {
    hide Inv, NoneLost, FormattedFs, Steady, EventDemands, EventStep, Nodes, Handles, HasSystemFiles;
    if n == 0 {
      FormattedLosesNone(disk, diskSize, junk);
    } else {
      RunLosesNone(disk, diskSize, junk, states, events, results, n - 1);
      ReachableStates(disk, diskSize, junk, states, events, results);
      EventLosesNone(states[n - 1], events[n - 1], states[n], results[n - 1]);
    }
  }

  lemma EventLosesNone(fs: Fs, e: Event, fs': Fs, r: Result)
    requires Inv(fs) && HasSystemFiles(Nodes(fs)) && NoneLost(fs) && Inv(fs')
    requires Steady(fs, e) ==> EventDemands(fs, e) && EventStep(fs, e) == (fs', r)
    ensures NoneLost(fs')
  {
    hide RootOk, BitsOk, BlocksOk, DirsOk, ParentsOk, ReachOk, FdsOk, InodeShape, NoneLost, Nodes, HasSystemFiles,
         Demands, Step, Remounted;
    match e
    case Call(op) => StepLosesNone(fs, op);
    case Reboot =>
      RemountKeeps(fs);
      SameOwners(fs, fs');
  }

  lemma FormattedLosesNone(disk: seq<Block>, diskSize: nat, junk: Block)
    requires DATA_START + 1 < |disk| <= BITMAP_BITS && diskSize < WORD_LIMIT * WORD_LIMIT
    ensures Inv(FormattedFs(disk, diskSize, junk)) && NoneLost(FormattedFs(disk, diskSize, junk))
    ensures SameMetadata(FreshFs(disk, diskSize, junk), FormattedFs(disk, diskSize, junk))
  {
    hide Inv, NoneLost, FreshFs, Step, CreateStep, OpenStep, Nodes, Handles, SystemReady;
    FormatReady(disk, diskSize, junk);
    FormattedTree(disk, diskSize, junk);
    FreshInv(disk, diskSize, junk);
    FreshLosesNone(disk, diskSize, junk);
    var fs0 := FreshFs(disk, diskSize, junk);
    var fs1 := Stepped(fs0, Create(SLASH_DEV, DIR, false));
    var fs2 := Stepped(fs1, Create(SLASH_TTY, SPECIAL, false));
    var fs3 := Stepped(fs2, Create(SLASH_TTYS, SPECIAL, false));
    SystemOpens(fs3);
    var fs4 := Stepped(fs3, Open(SLASH_TTY));
    var fs5 := Stepped(fs4, Open(SLASH_TTYS));
  }

  /** One call, for what it keeps. */
  lemma Stepped(fs: Fs, op: Op) returns (fs': Fs)
    requires Pre(fs, op) && NoneLost(fs)
    ensures fs' == Step(fs, op).0 && Inv(fs') && NoneLost(fs') && SameMetadata(fs, fs')
    ensures op.Create? ==> fs' == CreateStep(fs, op.path, op.ftype, op.withFd).0
    ensures op.Open? ==> fs' == OpenStep(fs, op.path).0
  {
    hide Inv, Demands, CreateStep, OpenStep;
    fs' := Step(fs, op).0;
    StepLosesNone(fs, op);
    MetadataStays(fs, op);
  }

  /** The blocks that formatting does not write. */
  lemma FreshElsewhere(disk: seq<Block>, diskSize: nat, junk: Block)
    requires DATA_START < |disk| && diskSize < WORD_LIMIT * WORD_LIMIT
    ensures |FreshFs(disk, diskSize, junk).disk| == |disk|
    ensures forall b: nat :: DATA_START < b < |disk| ==> FreshFs(disk, diskSize, junk).disk[b] == disk[b]
  {
    hide SyncedDisk;
  }

  lemma FreshLosesNone(disk: seq<Block>, diskSize: nat, junk: Block)
    requires DATA_START + 1 < |disk| <= BITMAP_BITS && diskSize < WORD_LIMIT * WORD_LIMIT
    ensures Shape(FreshFs(disk, diskSize, junk)) && NoneLost(FreshFs(disk, diskSize, junk))
  {
    hide SyncedDisk;
    FreshInv(disk, diskSize, junk);
    SpanIs(DATA_START + 1);
  }

  lemma SpanIs(n: nat)
    ensures forall b: nat :: b in Span(0, n) <==> b < n
  {
    forall b: nat
      ensures b in Span(0, n) <==> b < n
    {
      assert Inside(0, n, b) <==> b < n;
    }
  }

  // ------------------------------------------------------------------- format

  lemma SyncedBlocks(super: Super, ibits: set<nat>, dbits: set<nat>, inodes: seq<Inode>, disk: seq<Block>)
    requires SuperEncodable(super) && |inodes| == INODES && Encodable(inodes) && |disk| > DATA_START
    ensures var d, table := SyncedDisk(super, ibits, dbits, inodes, disk), TableImage(inodes);
            && d[0] == SuperImage(super) && d[1] == BitmapImage(ibits) && d[2] == BitmapImage(dbits)
            && d[3] == Piece(table, 0) && d[4] == Piece(table, 1) && d[5] == Piece(table, 2)
            && d[6] == Piece(table, 3) && d[7] == Piece(table, 4)
  {
    hide SuperImage, BitmapImage, TableImage, Piece;
  }

  /** A disk with the metadata of a fresh one and any other blocks. */
  lemma FreshDisk(disk: seq<Block>, d: seq<Block>, diskSize: nat, junk: Block)
    requires DATA_START + 1 < |disk| == |d| && diskSize < WORD_LIMIT * WORD_LIMIT
    requires forall b: nat :: b < DATA_START ==> d[b] == FreshFs(disk, diskSize, junk).disk[b]
    ensures FreshFs(d, diskSize, d[DATA_START]).disk == d
    ensures SyncedDisk(FreshSuper(diskSize), {0}, Span(0, DATA_START + 1), FreshInodes(), d) == d
  {
    hide SuperImage, BitmapImage, TableImage, Piece, SyncedDisk, Span;
    var super, dbits, inodes := FreshSuper(diskSize), Span(0, DATA_START + 1), FreshInodes();
    SyncedBlocks(super, {0}, dbits, inodes, disk);
    SyncedBlocks(super, {0}, dbits, inodes, d);
    var synced := SyncedDisk(super, {0}, dbits, inodes, d);
    forall b: nat | b < |d|
      ensures synced[b] == d[b]
    {
    }
  }

  /** What formatting leaves on the disk, read back as a boot would: the super block of a disk
      of that size, the root's inode, the blocks of the metadata and of the root, and a tree
      that is the root alone, without the devices that the next boot would open. */
  lemma FormattedDisk(disk: seq<Block>, diskSize: nat, junk: Block)
    requires DATA_START + 1 < |disk| <= BITMAP_BITS && diskSize < WORD_LIMIT * WORD_LIMIT
    ensures var d := FormattedFs(disk, diskSize, junk).disk;
            && |d| == |disk| && Mountable(d)
            && DecodeSuper(d[0]) ==
               Super([89, 111, 114, 104, 97], diskSize, diskSize / 512 % 0x1_0000_0000, 64, 1, 2, 3, 1, 8)
            && d[0][..6] == [89, 111, 114, 104, 97, 0]
            && var fs := LoadFs(d);
            && Inv(fs) && fs.ibits == {0} && (forall b: nat :: b in fs.dbits <==> b <= 8)
            && fs.inodes[0] == Inode([], 0, 8, 0, 0)
            && Nodes(fs) == imap[[] := Directory] && !SystemNamed(Nodes(fs))
  {
    hide Inv, FormattedFs, Nodes, Handles, SyncedDisk, SuperImage, DecodeSuper, LoadFs, Mountable, Entries;
    FormattedLosesNone(disk, diskSize, junk);
    var d := FormattedFs(disk, diskSize, junk).disk;
    FreshDisk(disk, d, diskSize, junk);
    FreshInv(d, diskSize, d[DATA_START]);
    var fs := FreshFs(d, diskSize, d[DATA_START]);
    LoadShutdown(fs);
    InvEncodable(fs);
    assert ShutdownDisk(fs) == d;
    assert LoadFs(d) == fs;
    SuperRoundTrip(fs.super);
    SpanIs(DATA_START + 1);
    SyncedBlocks(fs.super, fs.ibits, fs.dbits, fs.inodes, d);
    SuperLayout(fs.super);
  }
}
