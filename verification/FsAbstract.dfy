/** The specification of the file system, and the proof that every call refines it.

    The specification is a tree of names: a map from paths to directories, devices and
    files with their contents, and a table of open descriptors with their cursors.  It
    knows nothing of inodes, blocks, bitmaps or directory slots. */
module FsAbstract {
  import opened Common
  import opened Memory
  import opened Bitmap
  import opened Layout
  import opened Paths
  import opened FsState
  import opened FsNames
  import opened FsInvariant
  import opened FsMachine

  datatype Node = Directory | File(content: seq<byte>) | Device

  datatype Handle = Handle(path: Path, readPos: nat, writePos: nat)

  datatype Tree = Tree(nodes: imap<Path, Node>, handles: map<nat, Handle>)

  // -------------------------------------------------------- specification

  function NewNode(ftype: byte): Node {
    if ftype == DIR then Directory else if ftype == NORMAL then File([]) else Device
  }

  /** A create fails if the parent is not a directory or the name is taken; otherwise it
      adds one path, and opens it on the lowest free descriptor if asked to. */
  ghost function AbsCreate(t: Tree, path: seq<byte>, ftype: byte, withFd: bool): (Tree, Result) {
    if !Absolute(path) then (t, Code(-1))
    else
      var p := FullPath(path);
      if Parent(p) in t.nodes && t.nodes[Parent(p)].Directory? && p !in t.nodes then
        var nodes := t.nodes[p := NewNode(ftype)];
        var fd := FirstClear(t.handles.Keys);
        if withFd then (Tree(nodes, t.handles[fd := Handle(p, 0, 0)]), Code(fd))
        else (Tree(nodes, t.handles), Code(0))
      else (t, Code(-1))
  }

  ghost function AbsOpen(t: Tree, path: seq<byte>): (Tree, Result) {
    if Absolute(path) && FullPath(path) in t.nodes then
      var fd := FirstClear(t.handles.Keys);
      (t.(handles := t.handles[fd := Handle(FullPath(path), 0, 0)]), Code(fd))
    else (t, Code(-1))
  }

  ghost predicate FileHandle(t: Tree, fd: nat) {
    fd in t.handles && t.handles[fd].path in t.nodes && t.nodes[t.handles[fd].path].File?
  }

  /** A read returns the next bytes of the file. */
  ghost function AbsRead(t: Tree, fd: nat, count: nat): (Tree, Result) {
    if !FileHandle(t, fd) then (t, Code(-1))
    else
      var h := t.handles[fd];
      var c := t.nodes[h.path].content;
      var n := ReadCount(|c|, h.readPos, count);
      (t.(handles := t.handles[fd := h.(readPos := h.readPos + n)]),
       Data(if n == 0 then [] else c[h.readPos..h.readPos + n]))
  }

  /** A write appends to the file what fits in its block. */
  ghost function AbsWrite(t: Tree, fd: nat, data: seq<byte>): (Tree, Result) {
    if !FileHandle(t, fd) then (t, Code(-1))
    else
      var h := t.handles[fd];
      var n := WriteCount(h.writePos, |data|);
      (Tree(t.nodes[h.path := File(t.nodes[h.path].content + data[..n])],
            t.handles[fd := h.(writePos := h.writePos + n)]),
       Code(n))
  }

  ghost function AbsUnlink(t: Tree, path: seq<byte>): (Tree, Result) {
    if Absolute(path) && FullPath(path) in t.nodes
    then (t.(nodes := imap q | q in t.nodes && q != FullPath(path) :: t.nodes[q]), Code(0))
    else (t, Code(-1))
  }

  ghost function AbsStep(t: Tree, op: Op): (Tree, Result) {
    match op
    case Create(path, ftype, withFd) => AbsCreate(t, path, ftype, withFd)
    case Open(path) => AbsOpen(t, path)
    case Close(fd) => (t.(handles := t.handles - {fd}), Code(-1))
    case Read(fd, count) => AbsRead(t, fd, count)
    case Write(fd, data) => AbsWrite(t, fd, data)
    case Unlink(path, _) => AbsUnlink(t, path)
  }

  // ---------------------------------------------------------- abstraction

  ghost function NodeOf(fs: Fs, i: nat): Node
    requires Shape(fs) && i < INODES
  {
    assert InodeShape(fs.inodes[i], |fs.disk|);
    var n := fs.inodes[i];
    if n.ftype == DIR then Directory else if n.ftype == NORMAL then File(fs.disk[n.block][..n.size]) else Device
  }

  ghost function NodeAt(fs: Fs, p: Path): Node
    requires Inv(fs) && Resolve(fs, p).Some?
  {
    ResolveLive(fs, p, Resolve(fs, p).value);
    NodeOf(fs, Resolve(fs, p).value)
  }

  /** The one path of a live inode. */
  ghost function PathOf(fs: Fs, i: nat): (p: Path)
    requires Inv(fs) && i in fs.ibits
    ensures Resolve(fs, p) == Some(i)
  {
    assert Reached(fs, i);
    var p: Path :| Resolve(fs, p) == Some(i);
    p
  }

  ghost function HandleOf(fs: Fs, f: nat): Handle
    requires Inv(fs) && f in fs.fdbits
  {
    assert f < DESCRIPTORS;
    Handle(PathOf(fs, fs.fds[f].inode), fs.fds[f].readPos, fs.fds[f].writePos)
  }

  ghost function Nodes(fs: Fs): imap<Path, Node>
    requires Inv(fs)
  {
    imap p: Path | Resolve(fs, p).Some? :: NodeAt(fs, p)
  }

  ghost function Handles(fs: Fs): map<nat, Handle>
    requires Inv(fs)
  {
    map f: nat | f in fs.fdbits :: HandleOf(fs, f)
  }

  ghost function Abs(fs: Fs): Tree
    requires Inv(fs)
  {
    Tree(Nodes(fs), Handles(fs))
  }

  lemma PathIs(fs: Fs, i: nat, p: Path)
    requires Inv(fs) && i in fs.ibits && Resolve(fs, p) == Some(i)
    ensures PathOf(fs, i) == p
  {
    hide Inv;
    ResolveInjective(fs, PathOf(fs, i), p, i);
  }

  /** Descriptors keep naming the same paths while those resolve as before. */
  lemma HandlesKept(fs: Fs, fs': Fs)
    requires Inv(fs) && Inv(fs') && fs'.fdbits == fs.fdbits && fs'.fds == fs.fds
    requires forall f: nat :: f in fs.fdbits ==> fs.fds[f].inode in fs'.ibits
    requires forall p: Path, i: nat :: Resolve(fs, p) == Some(i) && i in fs'.ibits ==> Resolve(fs', p) == Some(i)
    ensures Handles(fs') == Handles(fs)
  {
    hide RootOk, BlocksOk, DirsOk, ParentsOk, ReachOk, Resolve;
    forall f: nat | f in fs.fdbits
      ensures HandleOf(fs', f) == HandleOf(fs, f)
    {
      var i := fs.fds[f].inode;
      assert f < DESCRIPTORS;
      PathIs(fs', i, PathOf(fs, i));
    }
  }

  // --------------------------------------------------------------- create

  lemma NodeCreated(fs: Fs, d: nat, name: seq<byte>, ftype: byte, i: nat)
    requires CanCreate(fs, d, name, ftype) && i in fs.ibits
    ensures Shape(fs) && Shape(Created(fs, d, name, ftype)) && i < INODES
    ensures NodeOf(Created(fs, d, name, ftype), i) == NodeOf(fs, i)
  {
    hide RootOk, BitsOk, BlocksOk, DirsOk, ParentsOk, ReachOk, FdsOk, Created, Listing, Lookup;
    CreatedListing(fs, d, name, ftype, i);
  }

  lemma NewNodeCreated(fs: Fs, d: nat, name: seq<byte>, ftype: byte)
    requires CanCreate(fs, d, name, ftype)
    ensures Shape(Created(fs, d, name, ftype)) && FirstClear(fs.ibits) < INODES
    ensures NodeOf(Created(fs, d, name, ftype), FirstClear(fs.ibits)) == NewNode(ftype)
  {
    hide RootOk, BitsOk, BlocksOk, DirsOk, ParentsOk, ReachOk, FdsOk, Created, Listing, Lookup;
    CreatedNew(fs, d, name, ftype);
  }

  lemma AbsCreated(fs: Fs, d: nat, pd: Path, name: seq<byte>, ftype: byte)
    requires CanCreate(fs, d, name, ftype) && Resolve(fs, pd) == Some(d)
    ensures Inv(Created(fs, d, name, ftype))
    ensures Nodes(Created(fs, d, name, ftype)) == Nodes(fs)[pd + [name] := NewNode(ftype)]
    ensures Handles(Created(fs, d, name, ftype)) == Handles(fs)
    ensures Resolve(Created(fs, d, name, ftype), pd + [name]) == Some(FirstClear(fs.ibits))
    ensures pd + [name] !in Nodes(fs)
  {
    hide RootOk, BlocksOk, DirsOk, ParentsOk, ReachOk, Created, Lookup, Resolve, NodeOf;
    var fs' := Created(fs, d, name, ftype);
    CreateKeeps(fs, d, name, ftype);
    NewPathWasFree(fs, d, pd, name, ftype);
    NewNodeCreated(fs, d, name, ftype);
    IbitsCreated(fs, d, name, ftype);
    forall p: Path
      ensures Resolve(fs', p) == if p == pd + [name] then Some(FirstClear(fs.ibits)) else Resolve(fs, p)
      ensures Resolve(fs, p).Some? ==> NodeAt(fs', p) == NodeAt(fs, p)
    {
      ResolveCreated(fs, d, pd, name, ftype, p);
      if Resolve(fs, p).Some? {
        ResolveLive(fs, p, Resolve(fs, p).value);
        NodeCreated(fs, d, name, ftype, Resolve(fs, p).value);
      }
    }
    HandlesKept(fs, fs');
  }

  // --------------------------------------------------------------- unlink

  lemma NodeUnlinked(fs: Fs, d: nat, k: nat, past: Past, i: nat)
    requires CanUnlink(fs, d, k) && i in fs.ibits && i != Target(fs, d, k)
    ensures Shape(fs) && Shape(Unlinked(fs, d, k, past)) && i < INODES
    ensures NodeOf(Unlinked(fs, d, k, past), i) == NodeOf(fs, i)
  {
    hide RootOk, BitsOk, BlocksOk, DirsOk, ParentsOk, ReachOk, FdsOk, Unlinked, Listing, Target;
    UnlinkedListing(fs, d, k, past, i);
  }

  lemma AbsUnlinked(fs: Fs, d: nat, pd: Path, k: nat, past: Past)
    requires CanUnlink(fs, d, k) && Resolve(fs, pd) == Some(d)
    ensures Inv(Unlinked(fs, d, k, past))
    ensures var p := pd + [Listing(fs, d)[k].name];
            p in Nodes(fs) && Nodes(Unlinked(fs, d, k, past)) == imap q | q in Nodes(fs) && q != p :: Nodes(fs)[q]
    ensures Handles(Unlinked(fs, d, k, past)) == Handles(fs)
  {
    hide RootOk, BlocksOk, DirsOk, ParentsOk, ReachOk, Unlinked, Listing, Lookup, Resolve, NodeOf, Target;
    var fs', ino := Unlinked(fs, d, k, past), Target(fs, d, k);
    UnlinkKeeps(fs, d, k, past);
    UnlinkedShape(fs, d, k, past);
    TargetPath(fs, d, pd, k);
    TargetIsFile(fs, d, k);
    var gone := pd + [Listing(fs, d)[k].name];
    forall p: Path
      ensures Resolve(fs', p) == if p == gone then None else Resolve(fs, p)
      ensures Resolve(fs, p).Some? && p != gone ==> NodeAt(fs', p) == NodeAt(fs, p)
    {
      ResolveUnlinked(fs, d, pd, k, past, p);
      if Resolve(fs, p).Some? && p != gone {
        var i := Resolve(fs, p).value;
        ResolveLive(fs, p, i);
        if i == ino {
          ResolveInjective(fs, p, gone, ino);
        }
        NodeUnlinked(fs, d, k, past, i);
      }
    }
    HandlesKept(fs, fs');
  }

  // ---------------------------------------------------------- descriptors

  lemma AbsOpened(fs: Fs, ino: nat, name: seq<byte>, p: Path)
    requires Inv(fs) && Resolve(fs, p) == Some(ino) && FirstClear(fs.fdbits) < DESCRIPTORS
    ensures Inv(OpenFd(fs, ino, name))
    ensures Abs(OpenFd(fs, ino, name)) == Tree(Nodes(fs), Handles(fs)[FirstClear(fs.fdbits) := Handle(p, 0, 0)])
  {
    hide RootOk, BlocksOk, DirsOk, ParentsOk, ReachOk, Resolve;
    var fs', fd := OpenFd(fs, ino, name), FirstClear(fs.fdbits);
    ResolveLive(fs, p, ino);
    assert FdsOk(fs');
    DescriptorsKeep(fs, fs');
    NodesSame(fs, fs');
    PathIs(fs', ino, p);
    forall f: nat | f in fs.fdbits
      ensures HandleOf(fs', f) == HandleOf(fs, f)
    {
      assert f < DESCRIPTORS && f != fd;
      PathIs(fs', fs.fds[f].inode, PathOf(fs, fs.fds[f].inode));
    }
  }

  /** Same names, same inodes, same bytes: the same tree. */
  lemma NodesSame(fs: Fs, fs': Fs)
    requires Inv(fs) && Inv(fs') && fs'.inodes == fs.inodes && fs'.disk == fs.disk
    requires forall p: Path :: Resolve(fs', p) == Resolve(fs, p)
    ensures Nodes(fs') == Nodes(fs)
  {
    hide RootOk, BitsOk, BlocksOk, DirsOk, ParentsOk, ReachOk, FdsOk, Resolve;
    forall p: Path | Resolve(fs, p).Some?
      ensures NodeAt(fs', p) == NodeAt(fs, p)
    {
    }
  }

  lemma AbsClosed(fs: Fs, fd: nat)
    requires Inv(fs)
    ensures Inv(CloseFd(fs, fd))
    ensures Abs(CloseFd(fs, fd)) == Tree(Nodes(fs), Handles(fs) - {fd})
  {
    hide RootOk, BlocksOk, DirsOk, ParentsOk, ReachOk, Resolve;
    var fs' := CloseFd(fs, fd);
    DescriptorsKeep(fs, fs');
    NodesSame(fs, fs');
    forall f: nat | f in fs'.fdbits
      ensures HandleOf(fs', f) == HandleOf(fs, f)
    {
      assert f < DESCRIPTORS;
      PathIs(fs', fs.fds[f].inode, PathOf(fs, fs.fds[f].inode));
    }
  }

  /** The handle and the node behind a descriptor that is open on a normal file. */
  lemma FileHandleOf(fs: Fs, fd: nat)
    requires Inv(fs) && OpenFile(fs, fd)
    ensures FileHandle(Abs(fs), fd)
    ensures Abs(fs).handles[fd] == Handle(PathOf(fs, fs.fds[fd].inode), fs.fds[fd].readPos, fs.fds[fd].writePos)
    ensures FileOf(fs, fd).block < |fs.disk| && FileOf(fs, fd).size <= BLOCK_BYTES
    ensures Abs(fs).nodes[Abs(fs).handles[fd].path] == File(fs.disk[FileOf(fs, fd).block][..FileOf(fs, fd).size])
  {
    hide RootOk, BlocksOk, DirsOk, ParentsOk, ReachOk, Resolve;
    assert InodeShape(FileOf(fs, fd), |fs.disk|);
  }

  lemma HandlePaths(fs: Fs, fs': Fs)
    requires Inv(fs) && Inv(fs') && fs'.fdbits == fs.fdbits && fs'.ibits == fs.ibits
    requires forall f: nat :: f < DESCRIPTORS ==> fs'.fds[f].inode == fs.fds[f].inode
    requires forall p: Path :: Resolve(fs', p) == Resolve(fs, p)
    ensures forall f: nat :: f in fs.fdbits ==>
              && f < DESCRIPTORS
              && HandleOf(fs', f) == Handle(HandleOf(fs, f).path, fs'.fds[f].readPos, fs'.fds[f].writePos)
  {
    hide RootOk, BlocksOk, DirsOk, ParentsOk, ReachOk, Resolve;
    forall f: nat | f in fs.fdbits
      ensures f < DESCRIPTORS && HandleOf(fs', f).path == HandleOf(fs, f).path
    {
      PathIs(fs', fs.fds[f].inode, PathOf(fs, fs.fds[f].inode));
    }
  }

  lemma AbsReadFd(fs: Fs, fd: nat, count: nat)
    requires Inv(fs) && OpenFile(fs, fd)
    ensures Inv(ReadFd(fs, fd, count))
    ensures (Abs(ReadFd(fs, fd, count)), Data(ReadData(fs, fd, count))) == AbsRead(Abs(fs), fd, count)
  {
    hide RootOk, BlocksOk, DirsOk, ParentsOk, ReachOk, Resolve, Nodes, Handles, Written;
    var fs' := ReadFd(fs, fd, count);
    FileHandleOf(fs, fd);
    assert FdsOk(fs');
    DescriptorsKeep(fs, fs');
    NodesSame(fs, fs');
    HandlesMoved(fs, fs', fd);
    ReadContent(fs, fd, count);
  }

  /** One descriptor's cursors move, and nothing else about the descriptors changes. */
  lemma HandlesMoved(fs: Fs, fs': Fs, fd: nat)
    requires Inv(fs) && Inv(fs') && fs'.fdbits == fs.fdbits && fs'.ibits == fs.ibits && fd in fs.fdbits
             && fd < DESCRIPTORS
    requires fs'.fds == fs.fds[fd := fs.fds[fd].(readPos := fs'.fds[fd].readPos, writePos := fs'.fds[fd].writePos)]
    requires forall p: Path :: Resolve(fs', p) == Resolve(fs, p)
    ensures fd in Handles(fs)
    ensures Handles(fs') == Handles(fs)[fd := Handle(Handles(fs)[fd].path, fs'.fds[fd].readPos, fs'.fds[fd].writePos)]
  {
    hide RootOk, BlocksOk, DirsOk, ParentsOk, ReachOk, Resolve, PathOf;
    HandlePaths(fs, fs');
  }

  lemma ReadContent(fs: Fs, fd: nat, count: nat)
    requires Shape(fs) && OpenFile(fs, fd)
    ensures FileOf(fs, fd).block < |fs.disk| && FileOf(fs, fd).size <= BLOCK_BYTES
    ensures var c, pos := fs.disk[FileOf(fs, fd).block][..FileOf(fs, fd).size], fs.fds[fd].readPos;
            var n := ReadCount(|c|, pos, count);
            ReadData(fs, fd, count) == if n == 0 then [] else c[pos..pos + n]
  {
    var file, pos := FileOf(fs, fd), fs.fds[fd].readPos;
    assert InodeShape(file, |fs.disk|);
    var n := ReadCount(file.size, pos, count);
    if n > 0 {
      SliceOfCut(fs.disk[file.block], file.size, pos, pos + n);
    }
  }

  lemma SliceOfCut(b: seq<byte>, size: nat, lo: nat, hi: nat)
    requires lo <= hi <= size <= |b|
    ensures b[..size][lo..hi] == b[lo..hi]
  {
  }

  // ---------------------------------------------------------------- write

  lemma WriteShape(fs: Fs, fd: nat, data: seq<byte>)
    requires Pre(fs, Write(fd, data))
    ensures var fs', i := WriteFd(fs, fd, data), fs.fds[fd].inode;
            Shape(fs') && i < INODES && FileChanged(fs, fs', i) && FdsOk(fs')
  {
    hide RootOk, BlocksOk, DirsOk, ParentsOk, ReachOk, Written;
    var fs', i := WriteFd(fs, fd, data), fs.fds[fd].inode;
    forall j: nat | j < INODES
      ensures InodeShape(fs'.inodes[j], |fs'.disk|)
    {
      assert InodeShape(fs.inodes[j], |fs.disk|);
    }
  }

  lemma WriteContent(fs: Fs, fs': Fs, fd: nat, data: seq<byte>, file: Inode, n: nat)
    requires Shape(fs) && Shape(fs') && OpenFile(fs, fd) && file == FileOf(fs, fd)
    requires file.block < |fs.disk| && file.size <= BLOCK_BYTES && fs' == WriteFd(fs, fd, data)
    requires n == WriteCount(fs.fds[fd].writePos, |data|)
    requires fs.fds[fd].writePos == file.size || n == 0
    ensures NodeOf(fs', fs.fds[fd].inode) == File(fs.disk[file.block][..file.size] + data[..n])
  {
    var b := fs.disk[file.block];
    if n == 0 {
      assert b[..file.size] + data[..0] == b[..file.size];
    } else {
      WrittenPrefix(b, file.size, data[..n]);
    }
  }

  lemma WrittenPrefix(m: seq<byte>, at: nat, data: seq<byte>)
    requires at + |data| <= |m|
    ensures Written(m, at, data)[..at + |data|] == m[..at] + data
  {
  }

  lemma AbsWriteFd(fs: Fs, fd: nat, data: seq<byte>)
    requires Pre(fs, Write(fd, data))
    ensures Inv(WriteFd(fs, fd, data))
    ensures (Abs(WriteFd(fs, fd, data)), Code(WriteCount(fs.fds[fd].writePos, |data|))) == AbsWrite(Abs(fs), fd, data)
  {
    hide RootOk, DirsOk, ParentsOk, ReachOk, Resolve, NodeOf, BlocksOk, Written, HandleOf, InodeShape;
    FileHandleOf(fs, fd);
    var fs', i := WriteFd(fs, fd, data), fs.fds[fd].inode;
    WriteShape(fs, fd, data);
    WriteContent(fs, fs', fd, data, FileOf(fs, fd), WriteCount(fs.fds[fd].writePos, |data|));
    FileChangedKeeps(fs, fs', i);
    FileChangedDirs(fs, fs', i);
    var t, t' := Abs(fs), AbsWrite(Abs(fs), fd, data).0;
    forall p: Path | Resolve(fs, p).Some?
      ensures NodeAt(fs', p) == t'.nodes[p]
    {
      var j := Resolve(fs, p).value;
      ResolveLive(fs, p, j);
      if j == i {
        PathIs(fs, i, p);
      } else {
        OtherNode(fs, fs', i, j);
        assert p != PathOf(fs, i);
      }
    }
    assert Nodes(fs') == t'.nodes;
    HandlesMoved(fs, fs', fd);
  }

  /** A write to one file changes no other file's bytes. */
  lemma OtherNode(fs: Fs, fs': Fs, i: nat, j: nat)
    requires Inv(fs) && Shape(fs') && i < INODES && FileChanged(fs, fs', i) && j in fs.ibits && j != i && j < INODES
    ensures NodeOf(fs', j) == NodeOf(fs, j)
  {
    hide RootOk, DirsOk, ParentsOk, ReachOk, FdsOk;
    assert HasBlock(fs, i);
    assert fs.inodes[j].ftype == NORMAL ==> HasBlock(fs, j);
  }

  // ------------------------------------------------------- the refinement

  lemma NodesDomain(fs: Fs, names: Path)
    requires Inv(fs)
    ensures names in Nodes(fs) <==> Resolve(fs, names).Some?
    ensures names in Nodes(fs) && Nodes(fs)[names].Directory? <==>
            Resolve(fs, names).Some? && IsDir(fs, Resolve(fs, names).value)
  {
    hide RootOk, BitsOk, BlocksOk, DirsOk, ParentsOk, ReachOk, FdsOk, Resolve;
    if Resolve(fs, names).Some? {
      ResolveLive(fs, names, Resolve(fs, names).value);
    }
  }

  lemma HandlesDomain(fs: Fs)
    requires Inv(fs)
    ensures Handles(fs).Keys == fs.fdbits
  {
    hide Inv;
  }

  lemma CreateRefines(fs: Fs, path: seq<byte>, ftype: byte, withFd: bool)
    requires Pre(fs, Create(path, ftype, withFd))
    ensures var (fs', r) := CreateStep(fs, path, ftype, withFd);
            Inv(fs') && (Abs(fs'), r) == AbsCreate(Abs(fs), path, ftype, withFd)
  {
    hide RootOk, BitsOk, BlocksOk, DirsOk, ParentsOk, ReachOk, FdsOk, Resolve, Lookup, Listing, Nodes, Handles,
         Created, CanCreate, Strays, FullPath, Seek;
    if Absolute(path) {
      var p := FullPath(path);
      assert p == Parent(p) + [Leaf(p)];
      SeekFollowsIff(fs, Parent(p));
      NodesDomain(fs, Parent(p));
      NodesDomain(fs, p);
      HandlesDomain(fs);
      if Seek(fs, Parent(p)).Some? {
        var d := Seek(fs, Parent(p)).value;
        ResolveNext(fs, Parent(p), d, Leaf(p));
        if Lookup(fs, d, Leaf(p)) == None {
          CreateReady(fs, path, ftype, withFd, d);
          AbsCreated(fs, d, Parent(p), Leaf(p), ftype);
          if withFd {
            AbsOpened(Created(fs, d, Leaf(p), ftype), FirstClear(fs.ibits), Leaf(p), p);
          }
        }
      }
    }
  }

  lemma OpenRefines(fs: Fs, path: seq<byte>)
    requires Pre(fs, Open(path))
    ensures var (fs', r) := OpenStep(fs, path); Inv(fs') && (Abs(fs'), r) == AbsOpen(Abs(fs), path)
  {
    hide RootOk, BitsOk, BlocksOk, DirsOk, ParentsOk, ReachOk, FdsOk, Resolve, Lookup, Listing, Nodes, Handles,
         Strays, FullPath, Seek;
    var p := FullPath(path);
    assert p == Parent(p) + [Leaf(p)];
    SeekFollowsIff(fs, Parent(p));
    NodesDomain(fs, p);
    HandlesDomain(fs);
    var d := Seek(fs, Parent(p)).value;
    ResolveNext(fs, Parent(p), d, Leaf(p));
    match Lookup(fs, d, Leaf(p))
    case None =>
    case Some(ino) => AbsOpened(fs, ino, Leaf(p), p);
  }

  lemma UnlinkRefines(fs: Fs, path: seq<byte>, past: Past)
    requires Pre(fs, Unlink(path, past))
    ensures var (fs', r) := UnlinkStep(fs, path, past); Inv(fs') && (Abs(fs'), r) == AbsUnlink(Abs(fs), path)
  {
    hide RootOk, BitsOk, BlocksOk, DirsOk, ParentsOk, ReachOk, FdsOk, Resolve, Lookup, Listing, Nodes, Handles,
         Strays, FullPath, Seek, Unlinked, CanUnlink, Removable;
    var p := FullPath(path);
    assert p == Parent(p) + [Leaf(p)];
    SeekFollowsIff(fs, Parent(p));
    NodesDomain(fs, p);
    var d := Seek(fs, Parent(p)).value;
    ResolveNext(fs, Parent(p), d, Leaf(p));
    match Lookup(fs, d, Leaf(p))
    case None =>
    case Some(ino) =>
      UnlinkReady(fs, path, d, ino);
      AbsUnlinked(fs, d, Parent(p), IndexOf(Listing(fs, d), ino), past);
  }

  /** Every call keeps the invariant, and does to the tree what the specification says,
      with the result the specification gives. */
  lemma StepRefines(fs: Fs, op: Op)
    requires Pre(fs, op)
    ensures Inv(Step(fs, op).0)
    ensures AbsStep(Abs(fs), op) == (Abs(Step(fs, op).0), Step(fs, op).1)
  {
    hide RootOk, BitsOk, BlocksOk, DirsOk, ParentsOk, ReachOk, FdsOk, CreatePre, UnlinkPre, PathOk;
    match op
    case Create(path, ftype, withFd) => CreateRefines(fs, path, ftype, withFd);
    case Open(path) => OpenRefines(fs, path);
    case Close(fd) => AbsClosed(fs, fd);
    case Read(fd, count) => AbsReadFd(fs, fd, count);
    case Write(fd, data) => AbsWriteFd(fs, fd, data);
    case Unlink(path, past) => UnlinkRefines(fs, path, past);
  }

  /** The parent links form a tree: the path of a live inode is its parent's path and its
      own name, so following parents reaches the root in as many steps as the path is long. */
  lemma ParentLinks(fs: Fs, i: nat)
    requires Inv(fs) && i in fs.ibits && i != 0
    ensures i < INODES && fs.inodes[i].parent in fs.ibits
    ensures PathOf(fs, i) == PathOf(fs, fs.inodes[i].parent) + [fs.inodes[i].name]
  {
    hide RootOk, BlocksOk, DirsOk, ParentsOk, ReachOk, FdsOk, Resolve;
    var p := PathOf(fs, i);
    ResolveRoot(fs);
    ResolveLast(fs, p, i);
    var q := fs.inodes[i].parent;
    ResolveLive(fs, Parent(p), q);
    PathIs(fs, q, Parent(p));
    assert p == Parent(p) + [Leaf(p)];
  }
}
