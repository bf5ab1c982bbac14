/** The file system calls of src/fs.c as steps between states, with what each demands of
    its caller. */
module FsMachine {
  import opened Common
  import opened Memory
  import opened Bitmap
  import opened Layout
  import opened Paths
  import opened FsState
  import opened FsNames

  // ------------------------------------------------------------ seeking

  /** The fold that seek_directory performs: one lookup a component, whatever the type of
      the inode it is at. */
  ghost function Walk(fs: Fs, i: nat, names: Path): Option<nat>
    requires Shape(fs) && i < INODES
    decreases |names|
  {
    if names == [] then Some(i)
    else
      match Lookup(fs, i, names[0])
      case None => None
      case Some(j) => if j < INODES then Walk(fs, j, names[1..]) else None
  }

  /** seek_directory, on the names of the path: the fold must end at a directory. */
  ghost function Seek(fs: Fs, names: Path): Option<nat>
    requires Shape(fs)
  {
    match Walk(fs, 0, names)
    case None => None
    case Some(i) => if i < INODES && fs.inodes[i].ftype == DIR then Some(i) else None
  }

  /** Every inode number the fold comes to lies in the table; past it the original would
      read beyond its array. */
  ghost predicate InTable(fs: Fs, i: nat, names: Path)
    requires Shape(fs) && i < INODES
    decreases |names|
  {
    names == [] ||
    match Lookup(fs, i, names[0])
    case None => true
    case Some(j) => j < INODES && InTable(fs, j, names[1..])
  }

  /** The fold finds some component in an inode that is no directory, and goes on from
      there to its end. */
  ghost predicate Detours(fs: Fs, i: nat, names: Path)
    requires Shape(fs) && i < INODES
    decreases |names|
  {
    names != [] &&
    match Lookup(fs, i, names[0])
    case None => false
    case Some(j) => j < INODES && if IsDir(fs, i) then Detours(fs, j, names[1..]) else Walk(fs, j, names[1..]).Some?
  }

  /** A detour that ends at an inode of directory type. */
  ghost predicate Strays(fs: Fs, names: Path)
    requires Shape(fs)
  {
    Detours(fs, 0, names) && Seek(fs, names).Some?
  }

  lemma {:induction false} ResolveStops(fs: Fs, p: Path, q: Path)
    requires Shape(fs) && Resolve(fs, p) == None
    ensures Resolve(fs, p + q) == None
  {
    hide Shape, Lookup;
    if q == [] {
      assert p + q == p;
    } else {
      ResolveStops(fs, p, q[..|q| - 1]);
      assert (p + q)[..|p + q| - 1] == p + q[..|q| - 1];
    }
  }

  lemma ResolveNext(fs: Fs, p: Path, i: nat, name: seq<byte>)
    requires Inv(fs) && Resolve(fs, p) == Some(i)
    ensures i < INODES && i in fs.ibits
    ensures Resolve(fs, p + [name]) == if IsDir(fs, i) then Lookup(fs, i, name) else None
  {
    hide RootOk, BitsOk, BlocksOk, DirsOk, ParentsOk, ReachOk, FdsOk, Lookup;
    ResolveLive(fs, p, i);
    assert (p + [name])[..|p|] == p;
  }

  /** The fold is the resolution of the whole list of names if and only if it makes no
      detour; a path with a detour is none of the tree's. */
  lemma {:induction false} WalkResolves(fs: Fs, p: Path, i: nat, names: Path)
    requires Inv(fs) && Resolve(fs, p) == Some(i) && i < INODES
    ensures Walk(fs, i, names) == Resolve(fs, p + names) <==> !Detours(fs, i, names)
    ensures Detours(fs, i, names) ==> Resolve(fs, p + names) == None
    decreases |names|
  {
    hide RootOk, BitsOk, BlocksOk, DirsOk, ParentsOk, ReachOk, FdsOk, Resolve, Lookup;
    if names == [] {
      assert p + names == p;
    } else {
      var name, rest := names[0], names[1..];
      assert p + names == (p + [name]) + rest;
      ResolveNext(fs, p, i, name);
      if Resolve(fs, p + [name]) == None {
        ResolveStops(fs, p + [name], rest);
      } else {
        var j := Lookup(fs, i, name).value;
        ResolveLive(fs, p + [name], j);
        WalkResolves(fs, p + [name], j, rest);
      }
    }
  }

  /** The directory a list of names leads to in the name tree. */
  ghost function DirectoryAt(fs: Fs, names: Path): Option<nat>
    requires Shape(fs)
  {
    match Resolve(fs, names)
    case None => None
    case Some(i) => if IsDir(fs, i) then Some(i) else None
  }

  /** seek_directory finds exactly the directories of the name tree, on exactly the paths
      that do not stray through a file. */
  lemma SeekFollowsIff(fs: Fs, names: Path)
    requires Inv(fs)
    ensures Seek(fs, names) == DirectoryAt(fs, names) <==> !Strays(fs, names)
    ensures Resolve(fs, names).Some? ==> !Strays(fs, names)
  {
    hide BitsOk, BlocksOk, DirsOk, ParentsOk, ReachOk, FdsOk, Lookup, Walk, Detours;
    ResolveRoot(fs);
    WalkResolves(fs, [], 0, names);
    assert [] + names == names;
    if Resolve(fs, names).Some? {
      ResolveLive(fs, names, Resolve(fs, names).value);
    }
  }

  lemma {:induction false} WalkOneMore(fs: Fs, i: nat, names: Path, name: seq<byte>)
    requires Shape(fs) && i < INODES && Walk(fs, i, names).Some?
    ensures Walk(fs, i, names).value < INODES
    ensures Walk(fs, i, names + [name]) == Walk(fs, Walk(fs, i, names).value, [name])
    decreases |names|
  {
    hide Lookup, Shape;
    if names == [] {
      assert names + [name] == [name];
    } else {
      assert (names + [name])[0] == names[0] && (names + [name])[1..] == names[1..] + [name];
      WalkOneMore(fs, Lookup(fs, i, names[0]).value, names[1..], name);
    }
  }

  lemma {:induction false} WalkInTable(fs: Fs, i: nat, names: Path)
    requires Shape(fs) && i < INODES && Walk(fs, i, names).Some?
    ensures InTable(fs, i, names)
    decreases |names|
  {
    hide Lookup, Shape;
    if names != [] {
      WalkInTable(fs, Lookup(fs, i, names[0]).value, names[1..]);
    }
  }

  /** A normal file that starts with 36 bytes forming an entry for the root directory makes
      seek_directory accept a path through the file. */
  lemma ForgedEntry(fs: Fs, p: Path, i: nat, name: seq<byte>)
    requires Inv(fs) && Resolve(fs, p) == Some(i) && i < INODES && fs.inodes[i].ftype == NORMAL
    requires Listing(fs, i) != [] && Listing(fs, i)[0] == DirEntry(name, 0)
    ensures InTable(fs, 0, p + [name])
    ensures Seek(fs, p + [name]) == Some(0) && Resolve(fs, p + [name]) == None
  {
    hide BitsOk, BlocksOk, DirsOk, ParentsOk, ReachOk, FdsOk, Listing, Detours;
    ResolveRoot(fs);
    WalkResolves(fs, [], 0, p);
    assert [] + p == p;
    WalkOneMore(fs, 0, p, name);
    assert Lookup(fs, i, name) == Some(0);
    assert [name][1..] == [];
    WalkInTable(fs, 0, p + [name]);
    ResolveNext(fs, p, i, name);
  }

  // --------------------------------------------------------------- calls

  /** The calls.  Unlink also carries the bytes that happen to lie past its buffer. */
  datatype Op =
    | Create(path: seq<byte>, ftype: byte, withFd: bool)
    | Open(path: seq<byte>)
    | Close(fd: nat)
    | Read(fd: nat, count: nat)
    | Write(fd: nat, data: seq<byte>)
    | Unlink(path: seq<byte>, past: Past)

  datatype Result = Code(value: int) | Data(bytes: seq<byte>)

  predicate Absolute(path: seq<byte>) {
    path != [] && path[0] == SLASH
  }

  ghost predicate NamesOk(p: Path) {
    forall k: nat :: k < |p| ==> IsName(p[k])
  }

  function Parent(p: Path): Path
    requires p != []
  {
    p[..|p| - 1]
  }

  function Leaf(p: Path): seq<byte>
    requires p != []
  {
    p[|p| - 1]
  }

  /** The path is absolute, its names fit their buffers, and the way to its parent does
      not stray through a file. */
  ghost predicate PathOk(fs: Fs, path: seq<byte>)
    requires Shape(fs)
  {
    && Absolute(path) && NamesOk(FullPath(path))
    && InTable(fs, 0, Parent(FullPath(path))) && !Strays(fs, Parent(FullPath(path)))
  }

  ghost predicate OpenFile(fs: Fs, fd: nat)
    requires Shape(fs)
  {
    fd in fs.fdbits && fd < DESCRIPTORS && fs.fds[fd].inode < INODES && fs.inodes[fs.fds[fd].inode].ftype == NORMAL
  }

  ghost function FileOf(fs: Fs, fd: nat): Inode
    requires Shape(fs) && OpenFile(fs, fd)
  {
    fs.inodes[fs.fds[fd].inode]
  }

  ghost predicate CreatePre(fs: Fs, path: seq<byte>, ftype: byte, withFd: bool)
    requires Shape(fs)
  {
    && ftype <= SPECIAL
    && (Absolute(path) ==>
          && PathOk(fs, path)
          && (withFd ==> FirstClear(fs.fdbits) < DESCRIPTORS)
          && match Seek(fs, Parent(FullPath(path)))
             case None => true
             case Some(d) => Lookup(fs, d, Leaf(FullPath(path))) == None ==> HasRoom(fs, d, ftype))
  }

  ghost predicate UnlinkPre(fs: Fs, path: seq<byte>)
    requires Shape(fs)
  {
    && PathOk(fs, path)
    && match Seek(fs, Parent(FullPath(path)))
       case None => false
       case Some(d) =>
         match Lookup(fs, d, Leaf(FullPath(path)))
         case None => true
         case Some(ino) => Removable(fs, ino)
  }

  /** What a call demands: room where it allocates, descriptors that are open, a parent
      that is a directory for open and unlink, normal closed files for unlink, and a write
      cursor at the end of the file. */
  ghost predicate Demands(fs: Fs, op: Op)
    requires Inv(fs)
  {
    match op
    case Create(path, ftype, withFd) => CreatePre(fs, path, ftype, withFd)
    case Open(path) =>
      PathOk(fs, path) && Seek(fs, Parent(FullPath(path))).Some? && FirstClear(fs.fdbits) < DESCRIPTORS
    case Close(fd) => fd in fs.fdbits
    case Read(fd, _) => OpenFile(fs, fd)
    case Write(fd, data) =>
      OpenFile(fs, fd) && (fs.fds[fd].writePos == FileOf(fs, fd).size || WriteCount(fs.fds[fd].writePos, |data|) == 0)
    case Unlink(path, _) => UnlinkPre(fs, path)
  }

  /** A state and a call that a step is defined for. */
  ghost predicate Pre(fs: Fs, op: Op) {
    Inv(fs) && Demands(fs, op)
  }

  /** create_filetype. */
  ghost function CreateStep(fs: Fs, path: seq<byte>, ftype: byte, withFd: bool): (Fs, Result)
    requires Pre(fs, Create(path, ftype, withFd))
  {
    if !Absolute(path) then (fs, Code(-1))
    else
      match Seek(fs, Parent(FullPath(path)))
      case None => (fs, Code(-1))
      case Some(d) =>
        var name := Leaf(FullPath(path));
        if Lookup(fs, d, name).Some? then (fs, Code(-1))
        else
          CreateReady(fs, path, ftype, withFd, d);
          var fs1 := Created(fs, d, name, ftype);
          if withFd then
            (OpenFd(fs1, FirstClear(fs.ibits), name), Code(FirstClear(fs.fdbits)))
          else
            (fs1, Code(0))
  }

  lemma CreateReady(fs: Fs, path: seq<byte>, ftype: byte, withFd: bool, d: nat)
    requires Inv(fs) && CreatePre(fs, path, ftype, withFd) && Absolute(path)
    requires Seek(fs, Parent(FullPath(path))) == Some(d) && Lookup(fs, d, Leaf(FullPath(path))) == None
    ensures CanCreate(fs, d, Leaf(FullPath(path)), ftype)
    ensures Resolve(fs, Parent(FullPath(path))) == Some(d)
    ensures Created(fs, d, Leaf(FullPath(path)), ftype).fdbits == fs.fdbits
    ensures |Created(fs, d, Leaf(FullPath(path)), ftype).fds| == DESCRIPTORS
  {
    hide BlocksOk, DirsOk, ParentsOk, ReachOk, FdsOk, Lookup, Created;
    SeekFollowsIff(fs, Parent(FullPath(path)));
    IbitsCreated(fs, d, Leaf(FullPath(path)), ftype);
  }

  /** open. */
  ghost function OpenStep(fs: Fs, path: seq<byte>): (Fs, Result)
    requires Pre(fs, Open(path))
  {
    var d := Seek(fs, Parent(FullPath(path))).value;
    match Lookup(fs, d, Leaf(FullPath(path)))
    case None => (fs, Code(-1))
    case Some(ino) => (OpenFd(fs, ino, Leaf(FullPath(path))), Code(FirstClear(fs.fdbits)))
  }

  /** unlink: the entry removed is the first one with the inode that was found. */
  ghost function UnlinkStep(fs: Fs, path: seq<byte>, past: Past): (Fs, Result)
    requires Pre(fs, Unlink(path, past))
  {
    var d := Seek(fs, Parent(FullPath(path))).value;
    match Lookup(fs, d, Leaf(FullPath(path)))
    case None => (fs, Code(-1))
    case Some(ino) =>
      UnlinkReady(fs, path, d, ino);
      (Unlinked(fs, d, IndexOf(Listing(fs, d), ino), past), Code(0))
  }

  lemma UnlinkReady(fs: Fs, path: seq<byte>, d: nat, ino: nat)
    requires Inv(fs) && UnlinkPre(fs, path)
    requires Seek(fs, Parent(FullPath(path))) == Some(d) && Lookup(fs, d, Leaf(FullPath(path))) == Some(ino)
    ensures Resolve(fs, Parent(FullPath(path))) == Some(d)
    ensures var k := IndexOf(Listing(fs, d), ino);
            CanUnlink(fs, d, k) && Listing(fs, d)[k] == DirEntry(Leaf(FullPath(path)), ino)
  {
    hide BlocksOk, BitsOk, ParentsOk, ReachOk, FdsOk, Listing, Walk, Strays;
    SeekFollowsIff(fs, Parent(FullPath(path)));
    FindNameIs(Listing(fs, d), Leaf(FullPath(path)));
    assert DirOk(fs, d);
    var es, k := Listing(fs, d), IndexOf(Listing(fs, d), ino);
    var j: nat :| j < |es| && es[j] == DirEntry(Leaf(FullPath(path)), ino);
    assert k <= j;
    assert EntryOk(fs, d, es[k]) && EntryOk(fs, d, es[j]);
  }

  /** close returns -1 whether or not it closed anything. */
  ghost function Step(fs: Fs, op: Op): (Fs, Result)
    requires Pre(fs, op)
  {
    match op
    case Create(path, ftype, withFd) => CreateStep(fs, path, ftype, withFd)
    case Open(path) => OpenStep(fs, path)
    case Close(fd) => (CloseFd(fs, fd), Code(-1))
    case Read(fd, count) => (ReadFd(fs, fd, count), Data(ReadData(fs, fd, count)))
    case Write(fd, data) => (WriteFd(fs, fd, data), Code(WriteCount(fs.fds[fd].writePos, |data|)))
    case Unlink(path, past) => UnlinkStep(fs, path, past)
  }

  /** The bytes read copies out. */
  ghost function ReadData(fs: Fs, fd: nat, count: nat): seq<byte>
    requires Shape(fs) && OpenFile(fs, fd)
  {
    assert InodeShape(FileOf(fs, fd), |fs.disk|);
    var pos, n := fs.fds[fd].readPos, ReadCount(FileOf(fs, fd).size, fs.fds[fd].readPos, count);
    if n == 0 then [] else fs.disk[FileOf(fs, fd).block][pos..pos + n]
  }
}
