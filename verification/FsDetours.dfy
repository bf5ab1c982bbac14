/** A run after which seek_directory follows a path that the name tree does not have. */
module FsDetours {
  import opened Common
  import opened Memory
  import opened Bitmap
  import opened Layout
  import opened Paths
  import opened FsState
  import opened FsNames
  import opened FsMachine
  import opened FsAbstract
  import opened FsBoot

  /** "/f" and "/f/x", and the names "f" and "x". */
  const SLASH_F: seq<byte> := [47, 102]
  const SLASH_F_X: seq<byte> := [47, 102, 47, 120]
  const F: seq<byte> := [102]
  const X: seq<byte> := [120]

  /** The 36 bytes of a directory entry that names the root "x". */
  const FORGED: seq<byte> := X + seq(35, _ => 0)

  const FORGERY: seq<Event> := [Call(Create(SLASH_F, NORMAL, true)), Call(Write(2, FORGED))]

  lemma ForgedDecodes()
    ensures |FORGED| == ENTRY_BYTES && DecodeEntry(FORGED) == DirEntry(X, 0)
  {
    assert FORGED[NAME_BYTES..] == U32(0);
    assert FORGED[..2] == X + [0];
    DecodeStored(FORGED, X, 0);
  }

  lemma PathOfF()
    ensures Absolute(SLASH_F) && FullPath(SLASH_F) == [F] && NamesOk([F]) && Parent([F]) == []
  {
    assert SLASH_F[1..] == F && [] + F == F;
    PiecesWithoutSlash(F, []);
  }

  lemma ComponentsOfX()
    ensures Absolute(SLASH_F_X) && Components(SLASH_F_X[1..]) == [F, X]
  {
    assert SLASH_F_X[1..] == F + [SLASH] + X;
    PiecesThenFile(F, [], X);
    PiecesWithoutSlash(F, []);
    assert [] + F == F;
  }

  lemma ThirdDescriptor()
    ensures FirstClear({0, 1}) == 2
  {
    assert FirstClear({0, 1}) !in {0, 1};
    assert 2 !in {0, 1};
  }

  /** The tree after creating "/f" on a formatted disk, and after the write. */
  lemma ForgedTree()
    ensures var (t1, r1) := AbsStep(FORMATTED, Create(SLASH_F, NORMAL, true));
            && r1 == Code(2) && 2 in t1.handles && t1.handles[2] == Handle([F], 0, 0)
            && [F] in t1.nodes && t1.nodes[[F]] == File([])
            && var (t2, r2) := AbsStep(t1, Write(2, FORGED));
            && [F] in t2.nodes && t2.nodes[[F]] == File(FORGED)
  {
    hide FullPath;
    PathOfF();
    ThirdDescriptor();
    assert FORMATTED.handles.Keys == {0, 1};
    assert [F] != [DEV] by {
      assert [F][0] != [DEV][0];
    }
    assert [] + FORGED[..36] == FORGED;
  }

  /** A descriptor that the tree shows open on an empty file may be written to. */
  lemma WriteReady(fs: Fs, fd: nat, data: seq<byte>)
    requires Inv(fs) && fd in Handles(fs) && Handles(fs)[fd].path in Nodes(fs)
    requires Handles(fs)[fd].writePos == 0 && Nodes(fs)[Handles(fs)[fd].path] == File([])
    ensures Pre(fs, Write(fd, data))
  {
    hide RootOk, BlocksOk, DirsOk, ParentsOk, ReachOk, Resolve;
    assert fd in fs.fdbits && fd < DESCRIPTORS;
    var i := fs.fds[fd].inode;
    assert Handles(fs)[fd] == HandleOf(fs, fd);
    assert Nodes(fs)[PathOf(fs, i)] == NodeOf(fs, i);
  }

  /** A file that holds the forged entry is a file whose block lists it. */
  lemma ForgedListing(fs: Fs, p: Path) returns (i: nat)
    requires Inv(fs) && p in Nodes(fs) && Nodes(fs)[p] == File(FORGED)
    ensures Resolve(fs, p) == Some(i) && i < INODES && fs.inodes[i].ftype == NORMAL
    ensures Listing(fs, i) == [DirEntry(X, 0)]
  {
    hide RootOk, BitsOk, BlocksOk, DirsOk, ParentsOk, ReachOk, FdsOk, Resolve, DecodeEntry;
    NodesDomain(fs, p);
    i := Resolve(fs, p).value;
    ResolveLive(fs, p, i);
    assert InodeShape(fs.inodes[i], |fs.disk|);
    assert Nodes(fs)[p] == NodeOf(fs, i);
    ForgedDecodes();
    var b := fs.disk[fs.inodes[i].block];
    assert Slot(b, 0) == FORGED;
  }

  /** On any freshly formatted disk: after creating "/f" and writing one entry's worth of
      bytes to it, seek_directory takes "/f/x" for the root directory, although the name
      tree has no such path. */
  lemma FileReadAsDirectory(disk: seq<Block>, diskSize: nat, junk: Block)
    returns (states: seq<Fs>, results: seq<Result>)
    requires DATA_START + 2 < |disk| <= BITMAP_BITS && diskSize < WORD_LIMIT * WORD_LIMIT
    ensures Run(states, FORGERY, results) && states[0] == FormattedFs(disk, diskSize, junk)
    ensures Components(SLASH_F_X[1..]) == [F, X] && Inv(states[2]) && InTable(states[2], 0, [F, X])
    ensures Seek(states[2], [F, X]) == Some(0) && Resolve(states[2], [F, X]) == None
  {
    hide Inv, Demands, Step, AbsStep, Nodes, Handles, FormattedFs, Seek, InTable, Resolve, FullPath, Components;
    var fs0 := FormattedFs(disk, diskSize, junk);
    FormattedTree(disk, diskSize, junk);
    ForgedTree();
    CreateFReady(fs0);
    StepRefines(fs0, FORGERY[0].op);
    var (fs1, r1) := Step(fs0, FORGERY[0].op);
    WriteReady(fs1, 2, FORGED);
    StepRefines(fs1, FORGERY[1].op);
    var (fs2, r2) := Step(fs1, FORGERY[1].op);
    states, results := [fs0, fs1, fs2], [r1, r2];
    ComponentsOfX();
    var i := ForgedListing(fs2, [F]);
    ForgedEntry(fs2, [F], i, X);
    assert [F] + [X] == [F, X];
  }

  lemma CreateFReady(fs: Fs)
    requires Inv(fs) && Abs(fs) == FORMATTED && RoomLeft(fs, |fs.disk|) && DATA_START + 2 < |fs.disk|
    ensures Pre(fs, Create(SLASH_F, NORMAL, true))
  {
    hide Inv, Nodes, FullPath;
    PathOfF();
    ThirdDescriptor();
    HandlesDomain(fs);
    assert fs.fdbits == {0, 1};
    SystemCreateReady(fs, SLASH_F, NORMAL, true);
  }
}
