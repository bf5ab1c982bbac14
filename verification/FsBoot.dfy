/** Formatting, shutdown and mounting (src/fs.c), and runs that span reboots. */
module FsBoot {
  import opened Common
  import opened Memory
  import opened Bitmap
  import opened Layout
  import opened Paths
  import opened FsState
  import opened FsNames
  import opened FsInvariant
  import opened FsMachine
  import opened FsAbstract
  import opened Images

  const ZERO_FD := Fd([], 0, 0, 0, 0)

  function NoFds(): (fds: seq<Fd>)
    ensures |fds| == DESCRIPTORS
  {
    seq(DESCRIPTORS, _ => ZERO_FD)
  }

  // ------------------------------------------------- shutdown and loading

  /** The disk after metadata has been written to blocks 0 to 7. */
  ghost function SyncedDisk(super: Super, ibits: set<nat>, dbits: set<nat>, inodes: seq<Inode>,
                            disk: seq<Block>): (d: seq<Block>)
    requires SuperEncodable(super) && |inodes| == INODES && Encodable(inodes) && |disk| > DATA_START
    ensures |d| == |disk|
    ensures forall b: nat :: DATA_START <= b < |disk| ==> d[b] == disk[b]
  {
    var table := TableImage(inodes);
    disk[0 := SuperImage(super)][1 := BitmapImage(ibits)][2 := BitmapImage(dbits)]
        [3 := Piece(table, 0)][4 := Piece(table, 1)][5 := Piece(table, 2)][6 := Piece(table, 3)][7 := Piece(table, 4)]
  }

  lemma InvEncodable(fs: Fs)
    requires Inv(fs)
    ensures SuperEncodable(fs.super) && Encodable(fs.inodes)
  {
    hide RootOk, BitsOk, BlocksOk, DirsOk, ParentsOk, ReachOk, FdsOk;
    forall i: nat | i < |fs.inodes|
      ensures IsName(fs.inodes[i].name) && fs.inodes[i].block < WORD_LIMIT
      ensures fs.inodes[i].size < WORD_LIMIT && fs.inodes[i].parent < WORD_LIMIT
    {
      assert InodeShape(fs.inodes[i], |fs.disk|);
    }
  }

  /** shutdown. */
  ghost function ShutdownDisk(fs: Fs): seq<Block>
    requires Inv(fs)
  {
    InvEncodable(fs);
    SyncedDisk(fs.super, fs.ibits, fs.dbits, fs.inodes, fs.disk)
  }

  /** The super block carries the format indicator and points inside the disk. */
  ghost predicate Mountable(disk: seq<Block>) {
    && |disk| > DATA_START
    && var s := DecodeSuper(disk[0]);
    && s.indicator == INDICATOR
    && s.iBmapStart < |disk| && s.dBmapStart < |disk| && s.inodeTableStart + TABLE_BLOCKS <= |disk|
  }

  /** What a boot reads from a disk it recognizes; no descriptor is open yet. */
  ghost function LoadFs(disk: seq<Block>): Fs
    requires Mountable(disk)
  {
    var s := DecodeSuper(disk[0]);
    var t := s.inodeTableStart;
    Fs(s, ImageBits(disk[s.iBmapStart]), ImageBits(disk[s.dBmapStart]),
       DecodeTable(Joined(disk[t], disk[t + 1], disk[t + 2], disk[t + 3], disk[t + 4])), {}, NoFds(), disk)
  }

  /** Metadata written by shutdown is read back unchanged. */
  lemma LoadShutdown(fs: Fs)
    requires Inv(fs)
    ensures Mountable(ShutdownDisk(fs))
    ensures LoadFs(ShutdownDisk(fs)) == fs.(fdbits := {}, fds := NoFds(), disk := ShutdownDisk(fs))
  {
    hide RootOk, BlocksOk, DirsOk, ParentsOk, ReachOk, FdsOk, SuperImage, DecodeSuper, BitmapImage, ImageBits,
         TableImage, DecodeTable, Piece;
    InvEncodable(fs);
    SuperRoundTrip(fs.super);
    BitmapRoundTrip(fs.ibits);
    BitmapRoundTrip(fs.dbits);
    PiecesJoin(TableImage(fs.inodes));
    TableRoundTrip(fs.inodes);
  }

  /** A state with the same metadata and data blocks, but no descriptors, has the same tree. */
  lemma SameTree(fs: Fs, fs': Fs)
    requires Inv(fs)
    requires fs' == fs.(fdbits := {}, fds := NoFds(), disk := fs'.disk) && |fs'.disk| == |fs.disk|
    requires forall b: nat :: DATA_START <= b < |fs.disk| ==> fs'.disk[b] == fs.disk[b]
    ensures Inv(fs') && Nodes(fs') == Nodes(fs) && Handles(fs') == map[]
  {
    hide DirsOk, ParentsOk, ReachOk, FdsOk, Entries;
    assert Shape(fs');
    forall j: nat | j < INODES
      ensures IsDir(fs', j) <==> IsDir(fs, j)
      ensures IsDir(fs, j) ==> Listing(fs', j) == Listing(fs, j)
      ensures j in fs.ibits ==> NodeOf(fs', j) == NodeOf(fs, j)
    {
      assert j in fs.ibits && fs.inodes[j].ftype != SPECIAL ==> HasBlock(fs, j);
    }
    SameTreeRest(fs, fs');
  }

  lemma SameTreeRest(fs: Fs, fs': Fs)
    requires Inv(fs) && Shape(fs') && SameDirs(fs, fs')
    requires fs' == fs.(fdbits := {}, fds := fs'.fds, disk := fs'.disk)
    requires forall j: nat :: j < INODES && j in fs.ibits ==> NodeOf(fs', j) == NodeOf(fs, j)
    ensures Inv(fs') && Nodes(fs') == Nodes(fs) && Handles(fs') == map[]
  {
    hide DirsOk, ParentsOk, ReachOk, Listing, Resolve, NodeOf;
    forall p: Path
      ensures Resolve(fs', p) == Resolve(fs, p)
    {
      ResolveSame(fs, fs', p);
    }
    SameNames(fs, fs');
    assert forall j: nat :: HasBlock(fs', j) <==> HasBlock(fs, j);
    assert Inv(fs');
    forall p: Path | Resolve(fs, p).Some?
      ensures NodeAt(fs', p) == NodeAt(fs, p)
    {
      ResolveLive(fs, p, Resolve(fs, p).value);
    }
  }

  // -------------------------------------------------------- system files

  const SLASH_DEV: seq<byte> := [47, 100, 101, 118]
  const SLASH_TTY: seq<byte> := [47, 100, 101, 118, 47, 116, 116, 121]
  const SLASH_TTYS: seq<byte> := [47, 100, 101, 118, 47, 116, 116, 121, 83]
  const DEV: seq<byte> := [100, 101, 118]
  const TTY: seq<byte> := [116, 116, 121]
  const TTYS: seq<byte> := [116, 116, 121, 83]

  lemma SystemPaths()
    ensures FullPath(SLASH_DEV) == [DEV]
    ensures FullPath(SLASH_TTY) == [DEV, TTY]
    ensures FullPath(SLASH_TTYS) == [DEV, TTYS]
    ensures Parent([DEV]) == [] && Parent([DEV, TTY]) == [DEV] && Parent([DEV, TTYS]) == [DEV]
    ensures [DEV, TTY] != [DEV, TTYS]
  {
    assert [DEV, TTY][1] != [DEV, TTYS][1];
    PiecesWithoutSlash(DEV, []);
    assert SLASH_DEV[1..] == DEV && [] + DEV == DEV;
    PiecesThenFile(DEV, [], TTY);
    assert SLASH_TTY[1..] == DEV + [SLASH] + TTY;
    PiecesThenFile(DEV, [], TTYS);
    assert SLASH_TTYS[1..] == DEV + [SLASH] + TTYS;
  }

  /** The devices that open_system_files expects. */
  ghost predicate HasSystemFiles(nodes: imap<Path, Node>) {
    && [DEV] in nodes && nodes[[DEV]].Directory?
    && [DEV, TTY] in nodes && nodes[[DEV, TTY]].Device?
    && [DEV, TTYS] in nodes && nodes[[DEV, TTYS]].Device?
  }

  ghost predicate HasDev(nodes: imap<Path, Node>) {
    [DEV] in nodes && nodes[[DEV]].Directory?
  }

  /** The names that open_system_files needs, whatever they are. */
  ghost predicate SystemNamed(nodes: imap<Path, Node>) {
    HasDev(nodes) && [DEV, TTY] in nodes && [DEV, TTYS] in nodes
  }

  lemma OpenSystemReady(fs: Fs, path: seq<byte>, name: seq<byte>)
    requires Inv(fs) && HasDev(Nodes(fs)) && FirstClear(fs.fdbits) < DESCRIPTORS
    requires Absolute(path) && FullPath(path) == [DEV, name] && IsName(name)
    ensures Pre(fs, Open(path))
  {
    hide BitsOk, BlocksOk, DirsOk, ParentsOk, ReachOk, FdsOk, Resolve, Listing, FullPath, Lookup;
    assert Parent(FullPath(path)) == [DEV];
    ResolveRoot(fs);
    ResolveNext(fs, [], 0, DEV);
    assert [] + [DEV] == [DEV];
    NodesDomain(fs, [DEV]);
    assert InTable(fs, 0, [DEV]) by {
      if Lookup(fs, 0, DEV).Some? {
        ResolveLive(fs, [DEV], Lookup(fs, 0, DEV).value);
      }
    }
    SeekFollowsIff(fs, [DEV]);
  }

  lemma OpenedDescriptors(fs: Fs, path: seq<byte>)
    requires Pre(fs, Open(path)) && FullPath(path) in Nodes(fs)
    ensures var fs' := OpenStep(fs, path).0;
            && Inv(fs') && Nodes(fs') == Nodes(fs)
            && Handles(fs') == Handles(fs)[FirstClear(fs.fdbits) := Handle(FullPath(path), 0, 0)]
            && fs'.fdbits == fs.fdbits + {FirstClear(fs.fdbits)}
            && fs' == fs.(fds := fs'.fds, fdbits := fs'.fdbits)
  {
    hide RootOk, BitsOk, BlocksOk, DirsOk, ParentsOk, ReachOk, FdsOk, Resolve, Lookup, Nodes, Handles, Seek, FullPath,
         OpenStep;
    OpenRefines(fs, path);
    OpenTouches(fs, path);
    HandlesDomain(fs);
    HandlesDomain(OpenStep(fs, path).0);
  }

  /** A device that is missing is a failed open, at which the boot panics. */
  lemma OpenMissing(fs: Fs, path: seq<byte>)
    requires Pre(fs, Open(path))
    ensures OpenStep(fs, path).1 == Code(-1) <==> FullPath(path) !in Nodes(fs)
  {
    hide Inv, Nodes, Handles, Seek, FullPath, OpenStep, InTable, Strays;
    OpenRefines(fs, path);
  }

  lemma OpenTouches(fs: Fs, path: seq<byte>)
    requires Pre(fs, Open(path))
    ensures var fs' := OpenStep(fs, path).0; fs' == fs.(fds := fs'.fds, fdbits := fs'.fdbits)
  {
    hide RootOk, BitsOk, BlocksOk, DirsOk, ParentsOk, ReachOk, FdsOk, Lookup, FullPath;
  }

  ghost predicate SystemReady(fs: Fs) {
    Inv(fs) && SystemNamed(Nodes(fs)) && fs.fdbits == {}
  }

  /** The devices get descriptors 0 and 1. */
  lemma SystemOpens(fs: Fs)
    requires SystemReady(fs)
    ensures Pre(fs, Open(SLASH_TTY)) && Pre(OpenStep(fs, SLASH_TTY).0, Open(SLASH_TTYS))
    ensures var fs' := OpenStep(OpenStep(fs, SLASH_TTY).0, SLASH_TTYS).0;
            && Inv(fs') && Nodes(fs') == Nodes(fs)
            && Handles(fs') == map[0 := Handle([DEV, TTY], 0, 0), 1 := Handle([DEV, TTYS], 0, 0)]
            && fs' == fs.(fds := fs'.fds, fdbits := fs'.fdbits)
  {
    hide RootOk, BitsOk, BlocksOk, DirsOk, ParentsOk, ReachOk, FdsOk, Resolve, Lookup, Nodes, Handles, Seek, FullPath,
         OpenStep, PathOk;
    SystemPaths();
    FirstDescriptors();
    HandlesDomain(fs);
    OpenSystemReady(fs, SLASH_TTY, TTY);
    OpenedDescriptors(fs, SLASH_TTY);
    var fs1 := OpenStep(fs, SLASH_TTY).0;
    OpenSystemReady(fs1, SLASH_TTYS, TTYS);
    OpenedDescriptors(fs1, SLASH_TTYS);
    assert fs1.fdbits == {0};
    assert Handles(fs) == map[];
  }

  lemma FirstDescriptors()
    ensures FirstClear({}) == 0 && FirstClear({0}) == 1
  {
    assert FirstClear({0}) != 0;
    assert 1 !in {0};
  }

  /** open_system_files. */
  ghost function OpenSystemFiles(fs: Fs): Fs
    requires SystemReady(fs)
  {
    SystemOpens(fs);
    OpenStep(OpenStep(fs, SLASH_TTY).0, SLASH_TTYS).0
  }

  // ------------------------------------------------------------- remount

  /** shutdown, followed by a boot that recognizes the disk. */
  ghost function Remounted(fs: Fs): Fs
    requires Inv(fs) && HasSystemFiles(Nodes(fs))
  {
    RemountReady(fs);
    OpenSystemFiles(LoadFs(ShutdownDisk(fs)))
  }

  lemma RemountReady(fs: Fs)
    requires Inv(fs)
    ensures Mountable(ShutdownDisk(fs))
    ensures var fs' := LoadFs(ShutdownDisk(fs));
            && Inv(fs') && fs'.fdbits == {} && Nodes(fs') == Nodes(fs)
            && fs'.super == fs.super && fs'.ibits == fs.ibits && fs'.dbits == fs.dbits && fs'.inodes == fs.inodes
  {
    hide RootOk, BitsOk, BlocksOk, DirsOk, ParentsOk, ReachOk, FdsOk, Nodes, LoadFs, Mountable, SyncedDisk;
    LoadShutdown(fs);
    InvEncodable(fs);
    SameTree(fs, LoadFs(ShutdownDisk(fs)));
  }

  /** Shutting down and booting again loses nothing: the metadata, every name and every
      byte of every file are as before, and the descriptors are those of a fresh boot. */
  lemma RemountKeeps(fs: Fs)
    requires Inv(fs) && HasSystemFiles(Nodes(fs))
    ensures Inv(Remounted(fs))
    ensures Abs(Remounted(fs)) == Tree(Nodes(fs), map[0 := Handle([DEV, TTY], 0, 0), 1 := Handle([DEV, TTYS], 0, 0)])
    ensures Remounted(fs).ibits == fs.ibits && Remounted(fs).dbits == fs.dbits && Remounted(fs).inodes == fs.inodes
    ensures Remounted(fs).super == fs.super
  {
    hide RootOk, BitsOk, BlocksOk, DirsOk, ParentsOk, ReachOk, FdsOk, Nodes, Handles, LoadFs, Mountable, ShutdownDisk,
         Lookup, Seek, PathOk;
    RemountReady(fs);
    SystemOpens(LoadFs(ShutdownDisk(fs)));
  }

  // ---------------------------------------------------------------- runs

  datatype Event = Call(op: Op) | Reboot

  /** Where an event may happen: the invariant, and devices to open when booting. */
  ghost predicate Steady(fs: Fs, e: Event) {
    Inv(fs) && (e.Reboot? ==> HasSystemFiles(Nodes(fs)))
  }

  /** What an event demands of the caller. */
  ghost predicate EventDemands(fs: Fs, e: Event)
    requires Inv(fs)
  {
    e.Call? ==> Demands(fs, e.op)
  }

  ghost predicate EventPre(fs: Fs, e: Event) {
    Steady(fs, e) && EventDemands(fs, e)
  }

  ghost function EventStep(fs: Fs, e: Event): (Fs, Result)
    requires EventPre(fs, e)
  {
    match e
    case Call(op) => Step(fs, op)
    case Reboot => (Remounted(fs), Code(0))
  }

  ghost function AbsEvent(t: Tree, e: Event): (Tree, Result) {
    match e
    case Call(op) => AbsStep(t, op)
    case Reboot => (t.(handles := map[0 := Handle([DEV, TTY], 0, 0), 1 := Handle([DEV, TTYS], 0, 0)]), Code(0))
  }

  /** A sequence of states and results in which every call meets its demands.  Nothing is
      said here of a state that breaks the invariant: that there is none is a theorem. */
  ghost predicate Run(states: seq<Fs>, events: seq<Event>, results: seq<Result>) {
    && |states| == |events| + 1 && |results| == |events|
    && forall i: nat :: i < |events| && Steady(states[i], events[i]) ==>
         EventDemands(states[i], events[i]) && EventStep(states[i], events[i]) == (states[i + 1], results[i])
  }

  /** The run of the specification from a tree. */
  ghost function AbsRun(t: Tree, events: seq<Event>): (Tree, seq<Result>)
    decreases |events|
  {
    if events == [] then (t, [])
    else
      var (t1, rs) := AbsRun(t, events[..|events| - 1]);
      var (t2, r) := AbsEvent(t1, events[|events| - 1]);
      (t2, rs + [r])
  }

  lemma EventRefines(fs: Fs, e: Event)
    requires EventPre(fs, e)
    ensures Inv(fs) && Inv(EventStep(fs, e).0)
    ensures AbsEvent(Abs(fs), e) == (Abs(EventStep(fs, e).0), EventStep(fs, e).1)
  {
    hide RootOk, BitsOk, BlocksOk, DirsOk, ParentsOk, ReachOk, FdsOk, Nodes, Handles, Step, AbsStep, Remounted;
    match e
    case Call(op) => StepRefines(fs, op);
    case Reboot => RemountKeeps(fs);
  }

  /** The system files survive every event, so a reboot never finds them missing. */
  lemma SystemFilesStay(fs: Fs, e: Event)
    requires EventPre(fs, e) && HasSystemFiles(Nodes(fs))
    ensures Inv(EventStep(fs, e).0) && HasSystemFiles(Nodes(EventStep(fs, e).0))
  {
    hide RootOk, BitsOk, BlocksOk, DirsOk, ParentsOk, ReachOk, FdsOk, Nodes, Handles, Step, Remounted, EventStep,
         CreatePre, PathOk;
    EventRefines(fs, e);
    if e.Call? && e.op.Unlink? {
      UnlinksAFile(fs, e.op.path, e.op.past);
    }
  }

  lemma UnlinksAFile(fs: Fs, path: seq<byte>, past: Past)
    requires Pre(fs, Unlink(path, past))
    ensures Absolute(path)
    ensures FullPath(path) in Nodes(fs) ==> Nodes(fs)[FullPath(path)].File?
  {
    hide RootOk, BitsOk, BlocksOk, DirsOk, ParentsOk, ReachOk, FdsOk, Resolve, Lookup, Listing, Strays, FullPath,
         Seek;
    var p := FullPath(path);
    assert p == Parent(p) + [Leaf(p)];
    SeekFollowsIff(fs, Parent(p));
    NodesDomain(fs, p);
    ResolveNext(fs, Parent(p), Seek(fs, Parent(p)).value, Leaf(p));
  }

  /** A run that never reboots needs no system files. */
  ghost predicate StartsWell(fs: Fs, events: seq<Event>) {
    Inv(fs) && (HasSystemFiles(Nodes(fs)) || forall i: nat :: i < |events| ==> events[i] != Reboot)
  }

  /** The first `n` steps of a run. */
  ghost predicate SoundUpTo(states: seq<Fs>, n: nat)
    requires n < |states|
  {
    && (forall i: nat :: i <= n ==> Inv(states[i]))
    && (HasSystemFiles(Nodes(states[0])) ==> forall i: nat :: i <= n ==> HasSystemFiles(Nodes(states[i])))
  }

  /** Every state of every run satisfies the invariant, and the system files stay. */
  lemma {:induction false} RunKeeps(states: seq<Fs>, events: seq<Event>, results: seq<Result>, n: nat)
    requires Run(states, events, results) && StartsWell(states[0], events) && n <= |events|
    ensures SoundUpTo(states, n)
    ensures forall i: nat :: i < n ==> EventPre(states[i], events[i])
  {
    hide Inv, EventDemands, EventStep, Nodes, HasSystemFiles;
    if n > 0 {
      RunKeeps(states, events, results, n - 1);
      var fs, e := states[n - 1], events[n - 1];
      assert Steady(fs, e);
      EventRefines(fs, e);
      if HasSystemFiles(Nodes(states[0])) {
        SystemFilesStay(fs, e);
      }
    }
  }

  /** Every run of the file system, reboots included, is a run of the specification: the
      invariant holds in every state, the tree is the specification's, and so is every
      result returned to a caller. */
  lemma RunRefines(states: seq<Fs>, events: seq<Event>, results: seq<Result>)
    requires Run(states, events, results) && StartsWell(states[0], events)
    ensures forall i: nat :: i <= |events| ==> Inv(states[i])
    ensures AbsRun(Abs(states[0]), events) == (Abs(states[|events|]), results)
  {
    hide Inv, EventPre, EventStep, AbsEvent, Abs, StartsWell;
    RunKeeps(states, events, results, |events|);
    RunComputes(states, events, results, |events|);
    assert events[..|events|] == events && results[..|results|] == results;
  }

  lemma {:induction false} RunComputes(states: seq<Fs>, events: seq<Event>, results: seq<Result>, n: nat)
    requires Run(states, events, results) && n <= |events| && SoundUpTo(states, n)
    requires forall i: nat :: i < n ==> EventPre(states[i], events[i])
    ensures AbsRun(Abs(states[0]), events[..n]) == (Abs(states[n]), results[..n])
  {
    hide Inv, EventStep, AbsEvent, Abs, Nodes, HasSystemFiles, EventDemands;
    if n > 0 {
      RunComputes(states, events, results, n - 1);
      assert EventPre(states[n - 1], events[n - 1]);
      EventRefines(states[n - 1], events[n - 1]);
      assert events[..n][..n - 1] == events[..n - 1] && results[..n] == results[..n - 1] + [results[n - 1]];
    }
  }

  // -------------------------------------------------------------- format

  const ZERO_INODE := Inode([], 0, 0, 0, 0)

  function FreshSuper(diskSize: nat): Super {
    Super(INDICATOR, diskSize, diskSize / 512 % WORD_LIMIT, 64, 1, 2, 3, 1, DATA_START)
  }

  function FreshInodes(): (ns: seq<Inode>)
    ensures |ns| == INODES && Encodable(ns)
  {
    seq(INODES, _ => ZERO_INODE)[0 := Inode([], DIR, DATA_START, 0, 0)]
  }

  /** The state the formatting code builds before it creates the system files.  The block
      of the root directory is written from a null pointer: `junk` stands for its bytes. */
  ghost function FreshFs(disk: seq<Block>, diskSize: nat, junk: Block): Fs
    requires |disk| > DATA_START && diskSize < WORD_LIMIT * WORD_LIMIT
  {
    var synced := SyncedDisk(FreshSuper(diskSize), {0}, Span(0, DATA_START + 1), FreshInodes(), disk);
    Fs(FreshSuper(diskSize), {0}, Span(0, DATA_START + 1), FreshInodes(), {}, NoFds(), synced[DATA_START := junk])
  }

  lemma FreshInv(disk: seq<Block>, diskSize: nat, junk: Block)
    requires DATA_START < |disk| <= BITMAP_BITS && diskSize < WORD_LIMIT * WORD_LIMIT
    ensures Inv(FreshFs(disk, diskSize, junk))
    ensures Nodes(FreshFs(disk, diskSize, junk)) == imap[[] := Directory]
  {
    hide SyncedDisk;
    var fs := FreshFs(disk, diskSize, junk);
    assert Shape(fs);
    assert Listing(fs, 0) == [];
    assert Resolve(fs, []) == Some(0);
    assert forall b: nat :: b in fs.dbits <==> Inside(0, DATA_START + 1, b);
    assert DirOk(fs, 0);
    assert Reached(fs, 0);
    assert Inv(fs);
    forall p: Path | p != []
      ensures Resolve(fs, p) == None
    {
      FreshResolve(fs, p);
    }
  }

  lemma {:induction false} FreshResolve(fs: Fs, p: Path)
    requires Shape(fs) && fs.ibits == {0} && Listing(fs, 0) == [] && p != []
    ensures Resolve(fs, p) == None
  {
    hide Shape, Listing;
    if |p| > 1 {
      FreshResolve(fs, p[..|p| - 1]);
    }
  }

  /** One mkdir or device creation during formatting: enough is free, and the parent exists. */
  lemma SystemCreateReady(fs: Fs, path: seq<byte>, ftype: byte, withFd: bool)
    requires Inv(fs) && Absolute(path) && ftype <= SPECIAL && NamesOk(FullPath(path))
    requires |FullPath(path)| <= 2
    requires |fs.ibits| < INODES && (ftype != SPECIAL ==> |fs.dbits| < |fs.disk|)
    requires SizesUpTo(fs, 3 * ENTRY_BYTES) && (withFd ==> FirstClear(fs.fdbits) < DESCRIPTORS)
    ensures Pre(fs, Create(path, ftype, withFd))
  {
    hide BlocksOk, DirsOk, ParentsOk, ReachOk, FdsOk, Resolve, Listing, FullPath, Lookup;
    var names := Parent(FullPath(path));
    ResolveRoot(fs);
    FirstClearBound(fs.ibits);
    FirstClearBound(fs.dbits);
    assert InTable(fs, 0, names) && !Detours(fs, 0, names) by {
      if names != [] {
        assert names == [names[0]] && [] + [names[0]] == names;
        ResolveNext(fs, [], 0, names[0]);
        if Lookup(fs, 0, names[0]).Some? {
          ResolveLive(fs, names, Lookup(fs, 0, names[0]).value);
        }
      }
    }
    SeekFollowsIff(fs, names);
    if Seek(fs, names).Some? {
      ResolveLive(fs, names, Seek(fs, names).value);
    }
  }

  ghost predicate SizesUpTo(fs: Fs, bound: nat) {
    forall d: nat :: d in fs.ibits && d < |fs.inodes| ==> fs.inodes[d].size <= bound
  }

  lemma SystemCreated(fs: Fs, path: seq<byte>, ftype: byte, bound: nat)
    requires Pre(fs, Create(path, ftype, false)) && Absolute(path) && SizesUpTo(fs, bound)
    requires var p := FullPath(path); p !in Nodes(fs) && Parent(p) in Nodes(fs) && Nodes(fs)[Parent(p)].Directory?
    ensures var fs' := CreateStep(fs, path, ftype, false).0;
            && Inv(fs') && Nodes(fs') == Nodes(fs)[FullPath(path) := NewNode(ftype)] && fs'.fdbits == fs.fdbits
            && |fs'.ibits| == |fs.ibits| + 1 && |fs'.dbits| <= |fs.dbits| + (if ftype == SPECIAL then 0 else 1)
            && |fs'.disk| == |fs.disk| && SizesUpTo(fs', bound + ENTRY_BYTES)
  {
    hide BlocksOk, DirsOk, ParentsOk, ReachOk, FdsOk, Resolve, Lookup, Listing, Nodes, Handles, Created, Strays,
         FullPath, Seek;
    CreateRefines(fs, path, ftype, false);
    var p := FullPath(path);
    assert p == Parent(p) + [Leaf(p)];
    SeekFollowsIff(fs, Parent(p));
    NodesDomain(fs, Parent(p));
    NodesDomain(fs, p);
    var d := Seek(fs, Parent(p)).value;
    ResolveNext(fs, Parent(p), d, Leaf(p));
    CreateReady(fs, path, ftype, false, d);
    IbitsCreated(fs, d, Leaf(p), ftype);
    CreatedNew(fs, d, Leaf(p), ftype);
    var fs' := Created(fs, d, Leaf(p), ftype);
    forall i: nat | i in fs'.ibits && i < |fs'.inodes|
      ensures fs'.inodes[i].size <= bound + ENTRY_BYTES
    {
      if i in fs.ibits {
        CreatedListing(fs, d, Leaf(p), ftype, i);
      }
    }
  }

  /** The state after formatting, with the system files created and opened. */
  ghost function FormattedFs(disk: seq<Block>, diskSize: nat, junk: Block): Fs
    requires DATA_START + 1 < |disk| <= BITMAP_BITS && diskSize < WORD_LIMIT * WORD_LIMIT
  {
    FormatReady(disk, diskSize, junk);
    var fs1 := CreateStep(FreshFs(disk, diskSize, junk), SLASH_DEV, DIR, false).0;
    var fs2 := CreateStep(fs1, SLASH_TTY, SPECIAL, false).0;
    OpenSystemFiles(CreateStep(fs2, SLASH_TTYS, SPECIAL, false).0)
  }

  /** What formatting leaves free. */
  ghost predicate RoomLeft(fs: Fs, blocks: nat) {
    && |fs.ibits| == 4 && |fs.dbits| <= DATA_START + 2 && |fs.disk| == blocks
    && SizesUpTo(fs, 3 * ENTRY_BYTES)
  }

  lemma FormatReady(disk: seq<Block>, diskSize: nat, junk: Block)
    requires DATA_START + 1 < |disk| <= BITMAP_BITS && diskSize < WORD_LIMIT * WORD_LIMIT
    ensures var fs0 := FreshFs(disk, diskSize, junk);
            && Pre(fs0, Create(SLASH_DEV, DIR, false))
            && var fs1 := CreateStep(fs0, SLASH_DEV, DIR, false).0;
            && Pre(fs1, Create(SLASH_TTY, SPECIAL, false))
            && var fs2 := CreateStep(fs1, SLASH_TTY, SPECIAL, false).0;
            && Pre(fs2, Create(SLASH_TTYS, SPECIAL, false))
            && var fs3 := CreateStep(fs2, SLASH_TTYS, SPECIAL, false).0;
            && SystemReady(fs3) && RoomLeft(fs3, |disk|)
            && Nodes(fs3) == imap[[] := Directory, [DEV] := Directory, [DEV, TTY] := Device, [DEV, TTYS] := Device]
  {
    hide BlocksOk, DirsOk, ParentsOk, ReachOk, FdsOk, Resolve, Lookup, Listing, Nodes, Handles, Strays, FullPath,
         Seek, FreshFs, CreateStep, CreatePre, RootOk, BitsOk;
    SystemPaths();
    var fs0 := FreshFs(disk, diskSize, junk);
    FreshInv(disk, diskSize, junk);
    FreshSizes(disk, diskSize, junk);
    SystemCreateReady(fs0, SLASH_DEV, DIR, false);
    SystemCreated(fs0, SLASH_DEV, DIR, 0);
    var fs1 := CreateStep(fs0, SLASH_DEV, DIR, false).0;
    SystemCreateReady(fs1, SLASH_TTY, SPECIAL, false);
    SystemCreated(fs1, SLASH_TTY, SPECIAL, ENTRY_BYTES);
    var fs2 := CreateStep(fs1, SLASH_TTY, SPECIAL, false).0;
    SystemCreateReady(fs2, SLASH_TTYS, SPECIAL, false);
    SystemCreated(fs2, SLASH_TTYS, SPECIAL, 2 * ENTRY_BYTES);
  }

  lemma FreshSizes(disk: seq<Block>, diskSize: nat, junk: Block)
    requires DATA_START < |disk| && diskSize < WORD_LIMIT * WORD_LIMIT
    ensures var fs := FreshFs(disk, diskSize, junk);
            && |fs.ibits| == 1 && |fs.dbits| == DATA_START + 1 && |fs.disk| == |disk| && fs.fdbits == {}
            && SizesUpTo(fs, 0)
  {
    hide SyncedDisk;
    SpanSize(DATA_START + 1);
  }

  /** The tree of a freshly formatted disk. */
  ghost const FORMATTED: Tree :=
    Tree(imap[[] := Directory, [DEV] := Directory, [DEV, TTY] := Device, [DEV, TTYS] := Device],
         map[0 := Handle([DEV, TTY], 0, 0), 1 := Handle([DEV, TTYS], 0, 0)])

  /** A freshly formatted disk holds the root, /dev and the two devices, and nothing else. */
  lemma FormattedTree(disk: seq<Block>, diskSize: nat, junk: Block)
    requires DATA_START + 1 < |disk| <= BITMAP_BITS && diskSize < WORD_LIMIT * WORD_LIMIT
    ensures Inv(FormattedFs(disk, diskSize, junk))
    ensures Abs(FormattedFs(disk, diskSize, junk)) == FORMATTED
    ensures RoomLeft(FormattedFs(disk, diskSize, junk), |disk|)
  {
    hide BlocksOk, DirsOk, ParentsOk, ReachOk, FdsOk, Resolve, Lookup, Listing, Nodes, Handles, Strays, FullPath,
         Seek, FreshFs, CreateStep, CreatePre, RootOk, BitsOk;
    FormatReady(disk, diskSize, junk);
    var fs1 := CreateStep(FreshFs(disk, diskSize, junk), SLASH_DEV, DIR, false).0;
    var fs2 := CreateStep(fs1, SLASH_TTY, SPECIAL, false).0;
    SystemOpens(CreateStep(fs2, SLASH_TTYS, SPECIAL, false).0);
  }

  /** From a freshly formatted disk on, nothing assumed of the states: every one that calls
      and reboots can reach satisfies the invariant and still has its devices, and it has
      the tree and gave the results that the specification computes from the empty one. */
  lemma ReachableStates(disk: seq<Block>, diskSize: nat, junk: Block,
                        states: seq<Fs>, events: seq<Event>, results: seq<Result>)
    requires DATA_START + 1 < |disk| <= BITMAP_BITS && diskSize < WORD_LIMIT * WORD_LIMIT
    requires Run(states, events, results) && states[0] == FormattedFs(disk, diskSize, junk)
    ensures forall i: nat :: i <= |events| ==> Inv(states[i]) && HasSystemFiles(Nodes(states[i]))
    ensures AbsRun(FORMATTED, events) == (Abs(states[|events|]), results)
  {
    hide Inv, Steady, EventDemands, EventStep, AbsEvent, AbsRun, Nodes, Handles, FormattedFs;
    FormattedTree(disk, diskSize, junk);
    assert Nodes(states[0]) == FORMATTED.nodes;
    RunRefines(states, events, results);
    RunKeeps(states, events, results, |events|);
  }
}
