/** What a file is for: bytes written through a descriptor are read back through it, in
    order, whatever else the file system is doing meanwhile. */
module FsStreams {
  import opened Common
  import opened Memory
  import opened Bitmap
  import opened Layout
  import opened Paths
  import opened FsState
  import opened FsNames
  import opened FsMachine
  import opened FsAbstract
  import opened FsBoot

  /** `fd` is the only descriptor on the file at `p`, its write cursor is at the end of the
      contents `c`, and its read cursor is somewhere in them. */
  ghost predicate Stream(t: Tree, fd: nat, p: Path, c: seq<byte>) {
    && fd in t.handles && p in t.nodes && t.nodes[p] == File(c)
    && t.handles[fd].path == p
    && (forall g :: g in t.handles && g != fd ==> t.handles[g].path != p)
    && t.handles[fd].readPos <= |c| == t.handles[fd].writePos <= BLOCK_BYTES
  }

  /** An event that neither closes the descriptor nor opens or removes the file. */
  ghost predicate Leaves(e: Event, fd: nat, p: Path) {
    match e
    case Reboot => false
    case Call(op) =>
      match op
      case Close(g) => g != fd
      case Open(path) => Absolute(path) ==> FullPath(path) != p
      case Unlink(path, _) => Absolute(path) ==> FullPath(path) != p
      case _ => true
  }

  function Cut(s: seq<byte>): seq<byte> {
    if |s| <= BLOCK_BYTES then s else s[..BLOCK_BYTES]
  }

  function Put(e: Event, fd: nat): seq<byte> {
    if e.Call? && e.op.Write? && e.op.fd == fd then e.op.data else []
  }

  function Got(e: Event, r: Result, fd: nat): seq<byte> {
    if e.Call? && e.op.Read? && e.op.fd == fd && r.Data? then r.bytes else []
  }

  /** All bytes handed to write on `fd`, and all bytes read returned from it. */
  function Sent(events: seq<Event>, fd: nat): seq<byte> {
    if events == [] then [] else Sent(events[..|events| - 1], fd) + Put(events[|events| - 1], fd)
  }

  function Received(events: seq<Event>, results: seq<Result>, fd: nat): seq<byte>
    requires |results| == |events|
  {
    if events == [] then []
    else
      Received(events[..|events| - 1], results[..|results| - 1], fd)
      + Got(events[|events| - 1], results[|results| - 1], fd)
  }

  lemma StreamWrite(t: Tree, fd: nat, p: Path, c: seq<byte>, data: seq<byte>)
    requires Stream(t, fd, p, c)
    ensures Stream(AbsWrite(t, fd, data).0, fd, p, Cut(c + data))
    ensures AbsWrite(t, fd, data).0.handles[fd].readPos == t.handles[fd].readPos
  {
    var n := WriteCount(t.handles[fd].writePos, |data|);
    assert c + data[..n] == Cut(c + data);
  }

  lemma StreamRead(t: Tree, fd: nat, p: Path, c: seq<byte>, count: nat)
    requires Stream(t, fd, p, c)
    ensures Stream(AbsRead(t, fd, count).0, fd, p, c)
    ensures var (t', r) := AbsRead(t, fd, count);
            r.Data? && c[..t'.handles[fd].readPos] == c[..t.handles[fd].readPos] + r.bytes
  {
  }

  /** Events on other descriptors and other paths leave the stream alone. */
  lemma StreamLeft(t: Tree, fd: nat, p: Path, c: seq<byte>, e: Event)
    requires Stream(t, fd, p, c) && Leaves(e, fd, p)
    requires e.Call? ==> !(e.op.Write? && e.op.fd == fd) && !(e.op.Read? && e.op.fd == fd)
    ensures Stream(AbsEvent(t, e).0, fd, p, c)
    ensures AbsEvent(t, e).0.handles[fd] == t.handles[fd]
  {
    hide FullPath;
    match e.op
    case Create(path, ftype, withFd) =>
    case Open(path) =>
    case Close(g) =>
    case Read(g, count) =>
    case Write(g, data) =>
    case Unlink(path, _) =>
  }

  lemma CutTwice(a: seq<byte>, b: seq<byte>)
    ensures Cut(Cut(a) + b) == Cut(a + b)
  {
    if |a| > BLOCK_BYTES {
      assert (a + b)[..BLOCK_BYTES] == a[..BLOCK_BYTES] == (Cut(a) + b)[..BLOCK_BYTES];
    }
  }

  /** From a fresh file on, in every run of the specification: the file holds what was
      written, cut at one block, and what was read is a prefix of it. */
  lemma {:induction false} StreamLaw(t: Tree, events: seq<Event>, fd: nat, p: Path)
    requires Stream(t, fd, p, []) && forall i: nat :: i < |events| ==> Leaves(events[i], fd, p)
    ensures var (t', rs) := AbsRun(t, events);
            && |rs| == |events|
            && Stream(t', fd, p, Cut(Sent(events, fd)))
            && Received(events, rs, fd) == Cut(Sent(events, fd))[..t'.handles[fd].readPos]
    decreases |events|
  {
    hide Leaves, AbsEvent, Stream, Put, Got, Cut;
    if events == [] {
      CutShort([]);
      StreamParts(t, fd, p, []);
    } else {
      var n := |events| - 1;
      var init, e := events[..n], events[n];
      StreamLaw(t, init, fd, p);
      var (t1, rs1) := AbsRun(t, init);
      var c := Cut(Sent(init, fd));
      var (t2, r) := AbsEvent(t1, e);
      assert (rs1 + [r])[..n] == rs1;
      StreamStep(t1, fd, p, c, e);
      CutTwice(Sent(init, fd), Put(e, fd));
    }
  }

  lemma CutShort(s: seq<byte>)
    requires |s| <= BLOCK_BYTES
    ensures Cut(s) == s
  {
  }

  lemma PrefixOfCut(c: seq<byte>, data: seq<byte>, n: nat)
    requires n <= |c| <= BLOCK_BYTES
    ensures Cut(c + data)[..n] == c[..n]
  {
  }

  lemma StreamParts(t: Tree, fd: nat, p: Path, c: seq<byte>)
    requires Stream(t, fd, p, c)
    ensures fd in t.handles && t.handles[fd].readPos <= |c| <= BLOCK_BYTES
  {
  }

  /** One event, seen from the stream. */
  lemma StreamStep(t: Tree, fd: nat, p: Path, c: seq<byte>, e: Event)
    requires Stream(t, fd, p, c) && Leaves(e, fd, p)
    ensures var (t', r) := AbsEvent(t, e);
            && Stream(t', fd, p, Cut(c + Put(e, fd)))
            && Cut(c + Put(e, fd))[..t'.handles[fd].readPos] == c[..t.handles[fd].readPos] + Got(e, r, fd)
  {
    hide AbsRead, AbsWrite, FullPath, Cut;
    if e.Call? && e.op.Write? && e.op.fd == fd {
      StreamWrite(t, fd, p, c, e.op.data);
      PrefixOfCut(c, e.op.data, t.handles[fd].readPos);
    } else {
      assert c + [] == c;
      CutShort(c);
      if e.Call? && e.op.Read? && e.op.fd == fd {
        StreamRead(t, fd, p, c, e.op.count);
      } else {
        StreamLeft(t, fd, p, c, e);
      }
    }
  }

  /** The same of the file system itself: in a run that starts with the file just created,
      the bytes the reads returned are a prefix of the bytes the writes were given. */
  lemma FileStream(states: seq<Fs>, events: seq<Event>, results: seq<Result>, fd: nat, p: Path)
    requires Run(states, events, results) && Inv(states[0])
    requires Stream(Abs(states[0]), fd, p, []) && forall i: nat :: i < |events| ==> Leaves(events[i], fd, p)
    ensures forall i: nat :: i <= |events| ==> Inv(states[i])
    ensures Stream(Abs(states[|events|]), fd, p, Cut(Sent(events, fd)))
    ensures Received(events, results, fd) <= Cut(Sent(events, fd))
  {
    hide Inv, Abs, Stream, EventDemands, EventStep;
    RunRefines(states, events, results);
    StreamLaw(Abs(states[0]), events, fd, p);
    StreamParts(Abs(states[|events|]), fd, p, Cut(Sent(events, fd)));
  }

  /** A read of as many bytes as are left, or more, takes the cursor to the end. */
  lemma ReadToEnd(t: Tree, fd: nat, p: Path, c: seq<byte>, count: nat)
    requires Stream(t, fd, p, c) && count >= |c| - t.handles[fd].readPos
    ensures var (t', r) := AbsRead(t, fd, count);
            fd in t'.handles && t'.handles[fd].readPos == |c| && r == Data(c[t.handles[fd].readPos..])
  {
  }

  /** So in a run that ends with such a read, everything written, cut at one block, has been
      read back. */
  lemma FileReadBack(states: seq<Fs>, events: seq<Event>, results: seq<Result>, fd: nat, p: Path, count: nat)
    requires Run(states, events, results) && Inv(states[0])
    requires Stream(Abs(states[0]), fd, p, []) && forall i: nat :: i < |events| ==> Leaves(events[i], fd, p)
    requires events != [] && events[|events| - 1] == Call(Read(fd, count)) && count >= BLOCK_BYTES
    ensures Received(events, results, fd) == Cut(Sent(events, fd))
  {
    hide Inv, Abs, Stream, EventDemands, EventStep, Cut, AbsRun, Sent, Received;
    RunRefines(states, events, results);
    TreeReadBack(Abs(states[0]), events, fd, p, count);
  }

  lemma TreeReadBack(t: Tree, events: seq<Event>, fd: nat, p: Path, count: nat)
    requires Stream(t, fd, p, []) && forall i: nat :: i < |events| ==> Leaves(events[i], fd, p)
    requires events != [] && events[|events| - 1] == Call(Read(fd, count)) && count >= BLOCK_BYTES
    ensures |AbsRun(t, events).1| == |events|
    ensures Received(events, AbsRun(t, events).1, fd) == Cut(Sent(events, fd))
  {
    hide Stream, Cut, AbsRead, Leaves, Received;
    var init := events[..|events| - 1];
    StreamLaw(t, events, fd, p);
    StreamLaw(t, init, fd, p);
    var t1, c := AbsRun(t, init).0, Cut(Sent(init, fd));
    StreamParts(t1, fd, p, c);
    ReadToEnd(t1, fd, p, c, count);
    assert Sent(init, fd) + [] == Sent(init, fd);
    assert c[..|c|] == c;
  }

  lemma HandlesResolve(fs: Fs)
    requires Inv(fs)
    ensures forall g :: g in Abs(fs).handles ==> Abs(fs).handles[g].path in Abs(fs).nodes
  {
    hide RootOk, BlocksOk, DirsOk, ParentsOk, ReachOk, Resolve;
  }

  lemma AbsCreateStarts(t: Tree, path: seq<byte>)
    requires Absolute(path) && (forall g :: g in t.handles ==> t.handles[g].path in t.nodes)
    requires AbsCreate(t, path, NORMAL, true).1 != Code(-1)
    ensures var (t', r) := AbsCreate(t, path, NORMAL, true);
            r.Code? && r.value >= 0 && Stream(t', r.value, FullPath(path), [])
  {
    hide FullPath;
  }

  /** A create that succeeds hands out such a file, whatever its block held before. */
  lemma CreateStartsStream(fs: Fs, path: seq<byte>)
    requires Pre(fs, Create(path, NORMAL, true)) && Step(fs, Create(path, NORMAL, true)).1 != Code(-1)
    ensures var (fs', r) := Step(fs, Create(path, NORMAL, true));
            Absolute(path) && r.Code? && r.value >= 0 && Inv(fs') && Stream(Abs(fs'), r.value, FullPath(path), [])
  {
    hide Inv, Demands, Step, Abs, Stream, FullPath;
    StepRefines(fs, Create(path, NORMAL, true));
    HandlesResolve(fs);
    AbsCreateStarts(Abs(fs), path);
  }

  // ------------------------------------------------------------- overwriting

  /** Overwriting at `w`, as the caller of write means it. */
  function Spliced(c: seq<byte>, w: nat, data: seq<byte>): seq<byte>
    requires w <= |c|
  {
    c[..w] + data + (if w + |data| <= |c| then c[w + |data|..] else [])
  }

  /** The contents of an inode, as read sees them: nothing if the size is no length. */
  ghost function ContentOf(fs: Fs, i: nat): Option<seq<byte>> {
    if i < |fs.inodes| && fs.inodes[i].block < |fs.disk| && fs.inodes[i].size <= BLOCK_BYTES
    then Some(fs.disk[fs.inodes[i].block][..fs.inodes[i].size])
    else None
  }

  /** Open on a normal file, with the write cursor inside it. */
  ghost predicate CursorInside(fs: Fs, fd: nat)
    requires Shape(fs)
  {
    OpenFile(fs, fd) && fs.fds[fd].writePos <= FileOf(fs, fd).size
  }

  /** After the write the file holds what it held, with the data that was taken spliced in
      at the cursor. */
  ghost predicate Splices(fs: Fs, fd: nat, data: seq<byte>)
    requires Shape(fs) && CursorInside(fs, fd)
  {
    assert InodeShape(FileOf(fs, fd), |fs.disk|);
    var i, w := fs.fds[fd].inode, fs.fds[fd].writePos;
    ContentOf(WriteFd(fs, fd, data), i) == Some(Spliced(ContentOf(fs, i).value, w, data[..WriteCount(w, |data|)]))
  }

  /** write adds the number of bytes written to the size, overwritten ones included.  So it
      splices exactly when the cursor is at the end or nothing is written. */
  lemma WriteSplicesIff(fs: Fs, fd: nat, data: seq<byte>)
    requires Shape(fs) && CursorInside(fs, fd)
    ensures Splices(fs, fd, data) <==>
            fs.fds[fd].writePos == FileOf(fs, fd).size || WriteCount(fs.fds[fd].writePos, |data|) == 0
  {
    hide Written;
    var file := FileOf(fs, fd);
    assert InodeShape(file, |fs.disk|);
    BlockSplicesIff(fs.disk[file.block], file.size, fs.fds[fd].writePos, data);
  }

  lemma BlockSplicesIff(block: Block, size: nat, w: nat, data: seq<byte>)
    requires w <= size <= BLOCK_BYTES
    ensures var d := data[..WriteCount(w, |data|)];
            && (w == size || d == [] ==> size + |d| <= BLOCK_BYTES)
            && (d == [] ==> Spliced(block[..size], w, d) == block[..size])
            && (d != [] ==>
                  (size + |d| <= BLOCK_BYTES && Written(block, w, d)[..size + |d|] == Spliced(block[..size], w, d)
                   <==> w == size))
  {
    var d := data[..WriteCount(w, |data|)];
    var c := block[..size];
    if d == [] {
      assert Spliced(c, w, d) == c;
    } else if w == size {
      WrittenPrefix(block, w, d);
      assert c[..w] == c;
    } else {
      assert |Spliced(c, w, d)| < size + |d|;
    }
  }

  /** What open does with a normal file. */
  lemma OpensFile(fs: Fs, path: seq<byte>) returns (ino: nat)
    requires Pre(fs, Open(path)) && FullPath(path) in Nodes(fs) && Nodes(fs)[FullPath(path)].File?
    ensures ino < INODES && FirstClear(fs.fdbits) < DESCRIPTORS
    ensures Step(fs, Open(path)) == (OpenFd(fs, ino, Leaf(FullPath(path))), Code(FirstClear(fs.fdbits)))
    ensures fs.inodes[ino].ftype == NORMAL && ContentOf(fs, ino) == Some(Nodes(fs)[FullPath(path)].content)
    ensures Shape(fs)
  {
    hide RootOk, BitsOk, BlocksOk, DirsOk, ParentsOk, ReachOk, FdsOk, Lookup, FullPath, Seek, Strays, InTable,
         Resolve, Listing;
    var p := FullPath(path);
    assert p == Parent(p) + [Leaf(p)];
    SeekFollowsIff(fs, Parent(p));
    ResolveNext(fs, Parent(p), Seek(fs, Parent(p)).value, Leaf(p));
    NodesDomain(fs, p);
    ino := Resolve(fs, p).value;
    ResolveLive(fs, p, ino);
    assert InodeShape(fs.inodes[ino], |fs.disk|);
    assert Nodes(fs)[p] == NodeOf(fs, ino);
  }

  lemma OpenedCursor(fs: Fs, ino: nat, name: seq<byte>, content: seq<byte>)
    requires Shape(fs) && FirstClear(fs.fdbits) < DESCRIPTORS && ino < INODES && fs.inodes[ino].ftype == NORMAL
    requires ContentOf(fs, ino) == Some(content) && content != []
    ensures var fs', fd := OpenFd(fs, ino, name), FirstClear(fs.fdbits);
            Shape(fs') && CursorInside(fs', fd) && fs'.fds[fd].writePos < FileOf(fs', fd).size
  {
  }

  /** The failing case is what open leaves: after opening a file that is not empty, the
      first write of anything does not splice. */
  lemma OpenThenWrite(fs: Fs, path: seq<byte>, data: seq<byte>)
    requires Pre(fs, Open(path)) && FullPath(path) in Nodes(fs) && data != []
    requires Nodes(fs)[FullPath(path)].File? && Nodes(fs)[FullPath(path)].content != []
    ensures var (fs', r) := Step(fs, Open(path));
            r.Code? && r.value >= 0 && Shape(fs') && CursorInside(fs', r.value) && !Splices(fs', r.value, data)
  {
    hide Inv, Nodes, FullPath, Splices, Step, ContentOf, CursorInside, OpenFd, InTable, Strays, Seek;
    var ino := OpensFile(fs, path);
    var name, fd := Leaf(FullPath(path)), FirstClear(fs.fdbits);
    OpenedCursor(fs, ino, name, Nodes(fs)[FullPath(path)].content);
    WriteAtZero(OpenFd(fs, ino, name), fd, data);
  }

  lemma WriteAtZero(fs: Fs, fd: nat, data: seq<byte>)
    requires Shape(fs) && CursorInside(fs, fd) && fs.fds[fd].writePos < FileOf(fs, fd).size && data != []
    ensures !Splices(fs, fd, data)
  {
    hide Splices;
    assert InodeShape(FileOf(fs, fd), |fs.disk|);
    WriteSplicesIff(fs, fd, data);
  }
}
