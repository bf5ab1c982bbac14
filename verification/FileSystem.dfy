/** The file system of src/fs.c in its own form: bitmaps of words, an inode table, a
    descriptor table and a disk, updated in place by the calls.  Every call is proved to
    take the state to the one its step in FsMachine gives. */
module FileSystem {
  import opened Common
  import opened Memory
  import opened Bitmap
  import opened Layout
  import opened Paths
  import opened FsState
  import opened FsNames
  import opened FsMachine
  import opened FsAbstract
  import opened FsBoot
  import opened Images
  import opened WordImages
  import opened Words

  /** alloc_bitrange for one bit, as fs.c calls it: the capacity it passes is that of a
      whole block of bytes, so the scan could run past the array if no bit were free. */
  method AllocBit(bitmap: array<bv32>) returns (n: nat)
    requires bitmap.Length <= BITMAP_WORDS && FirstClear(BitsOf(bitmap[..])) < 32 * bitmap.Length
    modifies bitmap
    ensures n == old(FirstClear(BitsOf(bitmap[..])))
    ensures BitsOf(bitmap[..]) == old(BitsOf(bitmap[..])) + {n}
  {
    ghost var bits := BitsOf(bitmap[..]);
    FirstFitIsFirstClear(bits, 32 * bitmap.Length, FirstClear(bits));
    forall s: nat
      ensures IsFirstFit(bits, Scanned(BLOCK_BYTES * 8), 1, false, s) ==> s == FirstClear(bits)
    {
      FirstFitIsFirstClear(bits, Scanned(BLOCK_BYTES * 8), s);
    }
    var range := AllocBitRange(bitmap, BLOCK_BYTES * 8, 1, false);
    assert range.length != 0 by {
      assert Fits(bits, Scanned(BLOCK_BYTES * 8), 1, false, FirstClear(bits));
    }
    n := range.start;
    assert Span(n, 1) == {n};
  }

  /** dealloc_bitrange of one bit. */
  method FreeBit(bitmap: array<bv32>, n: nat)
    requires bitmap.Length <= BITMAP_WORDS && n < 32 * bitmap.Length
    modifies bitmap
    ensures BitsOf(bitmap[..]) == old(BitsOf(bitmap[..])) - {n}
  {
    DeallocBitRange(bitmap, BitRange(n, 1));
    assert Span(n, 1) == {n};
  }

  /** The search loop that search_dir and seek_directory share. */
  method FindEntry(block: Block, count: nat, name: seq<byte>) returns (r: Option<nat>)
    requires count <= DIR_FILE_COUNT_MAX && IsName(name)
    ensures r == FindName(Entries(block, count), name)
  {
    hide CStr, FromU32;
    ghost var es := Entries(block, count);
    CStrOf(name, []);
    assert name + [0] + [] == name + [0];
    var file := 0;
    assert es[0..] == es;
    while file < count
      invariant file <= count
      invariant FindName(es, name) == FindName(es[file..], name)
    {
      var slot := Slot(block, file);
      var c := Strcmp(slot[..NAME_BYTES], name + [0]);
      assert es[file] == DecodeEntry(slot);
      assert es[file..][1..] == es[file + 1..];
      if c == 0 {
        return Some(FromU32(slot[NAME_BYTES..]));
      }
      file := file + 1;
    }
    return None;
  }

  class FileSystem {
    var super: Super
    const ibmap: array<bv32>
    const dbmap: array<bv32>
    const fdmap: array<bv32>
    var inodes: seq<Inode>
    var fds: seq<Fd>
    var disk: seq<Block>

    /** The abstract value of the object. */
    ghost function View(): Fs
      reads this, ibmap, dbmap, fdmap
    {
      Fs(super, BitsOf(ibmap[..]), BitsOf(dbmap[..]), inodes, BitsOf(fdmap[..]), fds, disk)
    }

    ghost predicate Sized() {
      && ibmap.Length == BITMAP_WORDS && dbmap.Length == BITMAP_WORDS && fdmap.Length == 1
      && ibmap != dbmap && ibmap != fdmap && dbmap != fdmap
    }

    /** The statically zeroed state of a machine that is about to boot from `disk`. */
    constructor (disk: seq<Block>)
      ensures Sized() && fresh(ibmap) && fresh(dbmap) && fresh(fdmap)
      ensures this.disk == disk && Unbooted()
    {
      this.disk := disk;
      super := Super([], 0, 0, 0, 0, 0, 0, 0, 0);
      ibmap := new bv32[BITMAP_WORDS](_ => 0);
      dbmap := new bv32[BITMAP_WORDS](_ => 0);
      fdmap := new bv32[1](_ => 0);
      inodes := seq(INODES, _ => ZERO_INODE);
      fds := NoFds();
      new;
      ZeroWords(ibmap[..]);
      ZeroWords(dbmap[..]);
      ZeroWords(fdmap[..]);
    }

    ghost predicate Unbooted()
      reads this, ibmap, dbmap, fdmap
    {
      && View().ibits == {} && View().dbits == {} && View().fdbits == {}
      && inodes == seq(INODES, _ => ZERO_INODE) && fds == NoFds()
    }

    /** The lookup of one component, which does not check that it is in a directory. */
    method LookIn(dir: nat, name: seq<byte>) returns (r: Option<nat>)
      requires Sized() && Shape(View()) && dir < INODES && IsName(name)
      ensures r == Lookup(View(), dir, name)
    {
      assert InodeShape(inodes[dir], |disk|);
      r := FindEntry(disk[inodes[dir].block], inodes[dir].size / ENTRY_BYTES, name);
    }

    /** search_dir, which insists on a directory. */
    method SearchDir(dir: nat, name: seq<byte>) returns (r: Option<nat>)
      requires Sized() && Shape(View()) && dir < INODES && inodes[dir].ftype == DIR && IsName(name)
      ensures r == Lookup(View(), dir, name)
    {
      r := LookIn(dir, name);
    }

    /** seek_directory: one pass over the characters of the path. */
    method SeekDirectory(dirPath: seq<byte>) returns (r: Option<nat>)
      requires Sized() && Shape(View())
      requires Absolute(dirPath) ==> NamesOk(Components(dirPath[1..])) && InTable(View(), 0, Components(dirPath[1..]))
      ensures r == if Absolute(dirPath) then Seek(View(), Components(dirPath[1..])) else None
    {
      if dirPath == [] || dirPath[0] != SLASH {
        return None;
      }
      hide PiecesFrom, Walk, InTable, Lookup, InodeShape;
      ghost var fs, names := View(), Components(dirPath[1..]);
      var current: nat, i := 0, 1;
      var nextDir: seq<byte> := [];
      while i < |dirPath|
        invariant 1 <= i <= |dirPath| && current < INODES
        invariant i == |dirPath| ==> nextDir == []
        invariant var rest := DropEmptyLast(PiecesFrom(dirPath[i..], nextDir));
                  Walk(fs, 0, names) == Walk(fs, current, rest) && InTable(fs, current, rest) && NamesOk(rest)
      {
        NextComponent(dirPath, i, nextDir);
        if dirPath[i] == SLASH || i + 1 == |dirPath| {
          if dirPath[i] != SLASH {
            nextDir := nextDir + [dirPath[i]];
          }
          ghost var rest := DropEmptyLast(PiecesFrom(dirPath[i + 1..], []));
          WalkStep(fs, current, nextDir, rest);
          var found := LookIn(current, nextDir);
          if found == None {
            return None;
          }
          current := found.value;
          nextDir := [];
        } else {
          nextDir := nextDir + [dirPath[i]];
        }
        i := i + 1;
      }
      assert dirPath[|dirPath|..] == [];
      WalkEnd(fs, current);
      if inodes[current].ftype != DIR {
        return None;
      }
      return Some(current);
    }

    /** link_file_in_dir. */
    method LinkFileInDir(dir: nat, ino: nat)
      requires Sized() && Shape(View()) && dir < INODES && ino < INODES && dir != ino
      requires inodes[dir].size / ENTRY_BYTES < DIR_FILE_COUNT_MAX
      modifies this
      ensures View() == old(LinkFile(View(), dir, ino))
    {
      assert InodeShape(inodes[dir], |disk|) && InodeShape(inodes[ino], |disk|);
      var block := disk[inodes[dir].block];
      var buf := new byte[BLOCK_BYTES](i requires 0 <= i < BLOCK_BYTES => block[i]);
      assert buf[..] == block;
      var count := inodes[dir].size / ENTRY_BYTES;
      MemWrite(buf, ENTRY_BYTES * count + NAME_BYTES, U32(ino));
      MemWrite(buf, ENTRY_BYTES * count, inodes[ino].name + [0]);
      inodes := inodes[dir := inodes[dir].(size := inodes[dir].size + ENTRY_BYTES)];
      disk := disk[inodes[dir].block := buf[..]];
    }

    /** unlink_file_in_dir: the entries after the first one with the inode move down.  `past`
        are the bytes on the stack after the buffer. */
    method UnlinkFileInDir(dir: nat, ino: nat, past: Past)
      requires Sized() && Shape(View()) && dir < INODES
      modifies this
      ensures var k := old(IndexOf(Listing(View(), dir), ino));
              View() == if k < old(inodes[dir].size / ENTRY_BYTES)
                        then old(UnlinkFile(View(), dir, k, past))
                        else old(View())
    {
      hide Entries, Shifted;
      assert InodeShape(inodes[dir], |disk|);
      var block := disk[inodes[dir].block];
      var count := inodes[dir].size / ENTRY_BYTES;
      var stack := block + past;
      var buf := new byte[BLOCK_BYTES + PAST_BYTES](i requires 0 <= i < BLOCK_BYTES + PAST_BYTES => stack[i]);
      assert buf[..] == stack && stack[..BLOCK_BYTES] == block;
      var entry := FindSlot(block, count, ino);
      if entry < count {
        ShiftDown(buf, entry, count, block, past);
        inodes := inodes[dir := inodes[dir].(size := inodes[dir].size - ENTRY_BYTES)];
      }
      disk := disk[inodes[dir].block := buf[..BLOCK_BYTES]];
    }

    /** allocate_file_descriptor. */
    method AllocateFileDescriptor(ino: nat, name: seq<byte>) returns (fd: nat)
      requires Sized() && |fds| == DESCRIPTORS && FirstClear(View().fdbits) < DESCRIPTORS
      modifies this, fdmap
      ensures fd == old(FirstClear(View().fdbits))
      ensures View() == old(OpenFd(View(), ino, name))
    {
      fd := AllocBit(fdmap);
      fds := fds[fd := Fd(name, ino, 0, 0, fd)];
    }

    /** allocate_inode for a name that is not there yet. */
    method AllocateInode(dir: nat, name: Name, ftype: byte) returns (ino: nat)
      requires Sized() && |inodes| == INODES && FirstClear(View().ibits) < INODES
      requires ftype != SPECIAL ==> FirstClear(View().dbits) < BITMAP_BITS
      modifies this, ibmap, dbmap
      ensures ino == old(FirstClear(View().ibits))
      ensures View() == old(NewInode(View(), dir, name, ftype))
    {
      ino := AllocBit(ibmap);
      var block := 0;
      if ftype != SPECIAL {
        block := AllocBit(dbmap);
      }
      inodes := inodes[ino := Inode(name, ftype, block, 0, dir)];
      super := super.(usedInodes := (super.usedInodes + 1) % WORD_LIMIT);
    }

    // ------------------------------------------------------- boot and halt

    /** The writes of super block, bitmaps and inode table that format and shutdown make. */
    method SyncMetadata()
      requires Sized() && SuperEncodable(super) && |inodes| == INODES && Encodable(inodes) && |disk| > DATA_START
      modifies this`disk
      ensures View() == old(View()).(disk := SyncedDisk(super, View().ibits, View().dbits, inodes, old(disk)))
    {
      hide TableImage, SuperImage, BitmapImage, WordsImage;
      WordsImageIs(ibmap[..]);
      WordsImageIs(dbmap[..]);
      var table := TableImage(inodes);
      disk := disk[0 := SuperImage(super)][1 := WordsImage(ibmap[..])][2 := WordsImage(dbmap[..])];
      disk := disk[3 := Piece(table, 0)][4 := Piece(table, 1)][5 := Piece(table, 2)][6 := Piece(table, 3)]
              [7 := Piece(table, 4)];
    }

    /** shutdown: the descriptors of the system files are closed and the metadata written. */
    method Shutdown()
      requires Sized() && Inv(View())
      modifies this, fdmap
      ensures View() == old(View().(fdbits := View().fdbits - {0} - {1}, disk := ShutdownDisk(View())))
    {
      hide RootOk, BlocksOk, DirsOk, ParentsOk, ReachOk, FdsOk, SyncedDisk;
      InvEncodable(View());
      var _ := CloseFile(0);
      var _ := CloseFile(1);
      SyncMetadata();
    }

    /** The mount path of initalize_file_system, up to the system files. */
    method LoadMetadata()
      requires Sized() && Unbooted() && Mountable(disk)
      modifies this, ibmap, dbmap
      ensures View() == old(LoadFs(disk))
    {
      hide ImageBits, DecodeTable, DecodeSuper;
      super := DecodeSuper(disk[0]);
      LoadBitmap(ibmap, disk[super.iBmapStart]);
      LoadBitmap(dbmap, disk[super.dBmapStart]);
      var t := super.inodeTableStart;
      inodes := DecodeTable(Joined(disk[t], disk[t + 1], disk[t + 2], disk[t + 3], disk[t + 4]));
    }

    /** The formatting path of initalize_file_system, up to the system files. */
    method FormatMetadata(diskSize: nat, junk: Block)
      requires Sized() && Unbooted() && |disk| > DATA_START && diskSize < WORD_LIMIT * WORD_LIMIT
      modifies this, ibmap, dbmap
      ensures View() == old(FreshFs(disk, diskSize, junk))
    {
      hide SyncedDisk, BitsOf, One;
      super := FreshSuper(diskSize);
      ibmap[0] := ibmap[0] | One(31);
      RootBit(old(ibmap[..]), ibmap[..]);
      FirstFitOfEmpty(Scanned(BLOCK_BYTES * 8), DATA_START + 1);
      FirstFitOfEmpty(32 * BITMAP_WORDS, DATA_START + 1);
      var range := AllocBitRange(dbmap, BLOCK_BYTES * 8, DATA_START + 1, false);
      assert range == BitRange(0, DATA_START + 1);
      assert BitsOf(dbmap[..]) == Span(0, DATA_START + 1) && BitsOf(ibmap[..]) == {0};
      inodes := inodes[0 := Inode([], DIR, DATA_START, 0, 0)];
      assert inodes == FreshInodes();
      SyncMetadata();
      disk := disk[DATA_START := junk];
    }

    /** open_system_files, which panics if a device cannot be opened. */
    method OpenDevices() returns (ok: bool)
      requires Sized() && Inv(View()) && View().fdbits == {} && HasDev(Nodes(View()))
      modifies this, fdmap
      ensures ok <==> old(SystemNamed(Nodes(View())))
      ensures ok ==> View() == old(OpenSystemFiles(View()))
    {
      hide Inv, OpenStep, Nodes, Handles, Seek, FullPath, PathOk;
      ghost var fs := View();
      SystemPaths();
      FirstDescriptors();
      OpenSystemReady(fs, SLASH_TTY, TTY);
      OpenMissing(fs, SLASH_TTY);
      var tty := OpenPath(SLASH_TTY);
      if tty == -1 {
        return false;
      }
      OpenedDescriptors(fs, SLASH_TTY);
      assert View().fdbits == {0};
      OpenSystemReady(View(), SLASH_TTYS, TTYS);
      OpenMissing(View(), SLASH_TTYS);
      var ttyS := OpenPath(SLASH_TTYS);
      return ttyS != -1;
    }

    /** create_system_files on a disk that has just been formatted. */
    method CreateDevices(ghost disk0: seq<Block>, ghost diskSize: nat, ghost junk: Block)
      requires Sized() && DATA_START + 1 < |disk0| <= BITMAP_BITS && diskSize < WORD_LIMIT * WORD_LIMIT
      requires View() == FreshFs(disk0, diskSize, junk)
      modifies this, ibmap, dbmap, fdmap
      ensures SystemReady(View()) && OpenSystemFiles(View()) == FormattedFs(disk0, diskSize, junk)
    {
      hide Inv, CreateStep, FreshFs, SystemReady, CreatePre;
      FormatReady(disk0, diskSize, junk);
      var _ := CreateFiletype(SLASH_DEV, DIR, false);
      var _ := CreateFiletype(SLASH_TTY, SPECIAL, false);
      var _ := CreateFiletype(SLASH_TTYS, SPECIAL, false);
    }

    /** initalize_file_system.  A disk whose super block carries the indicator is mounted;
        any other, and any at all under `forceFormat`, is formatted.  A mount panics if a
        device is missing. */
    method Initialize(diskSize: nat, junk: Block, forceFormat: bool) returns (ok: bool)
      requires Sized() && Unbooted()
      requires |disk| > DATA_START
      requires if !forceFormat && DecodeSuper(disk[0]).indicator == INDICATOR
               then Mountable(disk) && Inv(LoadFs(disk)) && HasDev(Nodes(LoadFs(disk)))
               else DATA_START + 1 < |disk| <= BITMAP_BITS && diskSize < WORD_LIMIT * WORD_LIMIT
      modifies this, ibmap, dbmap, fdmap
      ensures if !forceFormat && DecodeSuper(old(disk)[0]).indicator == INDICATOR
              then
                && (ok <==> SystemNamed(Nodes(LoadFs(old(disk)))))
                && (ok ==> View() == OpenSystemFiles(LoadFs(old(disk))))
              else ok && View() == FormattedFs(old(disk), diskSize, junk)
    {
      hide OpenSystemFiles, FormattedFs, FreshFs, Inv, Nodes, SystemNamed;
      if !forceFormat && DecodeSuper(disk[0]).indicator == INDICATOR {
        LoadMetadata();
        ok := OpenDevices();
      } else {
        FormatMetadata(diskSize, junk);
        CreateDevices(old(disk), diskSize, junk);
        NamedHasDev(View());
        ok := OpenDevices();
      }
    }

    // -------------------------------------------------------------- calls

    /** create_filetype: create, mkdir and the creation of the system files. */
    method CreateFiletype(path: seq<byte>, ftype: byte, withFd: bool) returns (r: int)
      requires Sized() && Pre(View(), Create(path, ftype, withFd))
      modifies this, ibmap, dbmap, fdmap
      ensures (View(), Code(r)) == old(CreateStep(View(), path, ftype, withFd))
    {
      hide RootOk, BitsOk, BlocksOk, DirsOk, ParentsOk, ReachOk, FdsOk, Walk, InTable, Strays, Lookup, FullPath,
           Components, Linked;
      if path == [] || path[0] != SLASH {
        return -1;
      }
      ghost var fs := View();
      var dirPath, filename := ParsePath(path);
      SplitNames(path, Components(dirPath[1..]), filename);
      var dir := SeekDirectory(dirPath);
      if dir == None {
        return -1;
      }
      var existing := SearchDir(dir.value, filename);
      if existing.Some? {
        return -1;
      }
      CreateReady(fs, path, ftype, withFd, dir.value);
      NewInodeShape(fs, dir.value, filename, ftype);
      var ino := AllocateInode(dir.value, filename, ftype);
      LinkFileInDir(dir.value, ino);
      if withFd {
        r := AllocateFileDescriptor(ino, filename);
      } else {
        r := 0;
      }
    }

    /** open. */
    method OpenPath(path: seq<byte>) returns (r: int)
      requires Sized() && Pre(View(), Open(path))
      modifies this, fdmap
      ensures (View(), Code(r)) == old(OpenStep(View(), path))
    {
      hide RootOk, BitsOk, BlocksOk, DirsOk, ParentsOk, ReachOk, FdsOk, Walk, InTable, Strays, Lookup, FullPath,
           Components;
      var dirPath, filename := ParsePath(path);
      SplitNames(path, Components(dirPath[1..]), filename);
      var dir := SeekDirectory(dirPath);
      var found := SearchDir(dir.value, filename);
      if found == None {
        return -1;
      }
      r := AllocateFileDescriptor(found.value, filename);
    }

    /** close, which returns -1 in every case. */
    method CloseFile(fd: nat) returns (r: int)
      requires Sized() && fd < DESCRIPTORS
      modifies fdmap
      ensures View() == old(CloseFd(View(), fd)) && r == -1
    {
      FreeBit(fdmap, fd);
      return -1;
    }

    /** read, into the caller's buffer. */
    method ReadFile(fd: nat, buf: array<byte>, count: nat) returns (bytesRead: nat)
      requires Sized() && Pre(View(), Read(fd, count)) && count <= buf.Length
      requires buf as object != ibmap && buf as object != dbmap && buf as object != fdmap
      modifies this, buf
      ensures View() == old(ReadFd(View(), fd, count))
      ensures bytesRead <= count && buf[..bytesRead] == old(ReadData(View(), fd, count))
      ensures buf[bytesRead..] == old(buf[..])[bytesRead..]
    {
      hide RootOk, BlocksOk, DirsOk, ParentsOk, ReachOk, SuperOk;
      var inode := inodes[fds[fd].inode];
      assert InodeShape(inode, |disk|);
      var entry;
      entry, bytesRead := CopyOut(disk[inode.block], fds[fd], inode.size, buf, count);
      fds := fds[fd := entry];
    }

    /** write, from the caller's bytes, wherever the cursor is. */
    method WriteFile(fd: nat, data: seq<byte>) returns (bytesWritten: nat)
      requires Sized() && Inv(View()) && OpenFile(View(), fd)
      modifies this
      ensures View() == old(WriteFd(View(), fd, data))
      ensures bytesWritten == old(WriteCount(fds[fd].writePos, |data|))
    {
      hide RootOk, BlocksOk, DirsOk, ParentsOk, ReachOk, SuperOk, Written, BitsOf, BitsOk, FdsOk;
      var i := fds[fd].inode;
      assert InodeShape(inodes[i], |disk|);
      var block := disk[inodes[i].block];
      var buf := new byte[BLOCK_BYTES](j requires 0 <= j < BLOCK_BYTES => block[j]);
      assert buf[..] == block;
      var entry, inode;
      entry, inode, bytesWritten := CopyIn(buf, fds[fd], inodes[i], data);
      fds, inodes := fds[fd := entry], inodes[i := inode];
      disk := disk[inode.block := buf[..]];
      assert bytesWritten == 0 ==> disk == old(disk);
    }

    /** unlink. */
    method UnlinkPath(path: seq<byte>, past: Past) returns (r: int)
      requires Sized() && Pre(View(), Unlink(path, past))
      modifies this, ibmap, dbmap
      ensures (View(), Code(r)) == old(UnlinkStep(View(), path, past))
    {
      hide RootOk, BitsOk, BlocksOk, DirsOk, ParentsOk, ReachOk, FdsOk, Walk, InTable, Strays, Lookup, FullPath,
           Components, Listing, UnlinkFile, Unlinked, UnlinkStep, Removable;
      ghost var fs := View();
      var dirPath, filename := ParsePath(path);
      SplitNames(path, Components(dirPath[1..]), filename);
      var dir := SeekDirectory(dirPath);
      var found := SearchDir(dir.value, filename);
      UnlinkStepIs(fs, path, past, dir.value, found);
      if found == None {
        return -1;
      }
      UnlinkFileInDir(dir.value, found.value, past);
      FreeBit(dbmap, inodes[found.value].block);
      FreeBit(ibmap, found.value);
      return 0;
    }
  }

  /** A reboot: the machine shuts down, and a fresh one boots from the disk it left. */
  method Reboot(machine: FileSystem, diskSize: nat, junk: Block) returns (next: FileSystem)
    requires machine.Sized() && Inv(machine.View()) && HasSystemFiles(Nodes(machine.View()))
    modifies machine, machine.fdmap
    ensures fresh(next) && next.Sized()
    ensures next.View() == old(Remounted(machine.View()))
  {
    hide Inv, HasSystemFiles, Nodes, OpenSystemFiles, LoadFs, ShutdownDisk, FormattedFs, SystemNamed, HasDev;
    ghost var fs := machine.View();
    LoadedIsReady(fs);
    machine.Shutdown();
    next := new FileSystem(machine.disk);
    NamedHasDev(LoadFs(ShutdownDisk(fs)));
    var _ := next.Initialize(diskSize, junk, false);
  }

  lemma NamedHasDev(fs: Fs)
    requires SystemReady(fs)
    ensures Inv(fs) && fs.fdbits == {} && SystemNamed(Nodes(fs)) && HasDev(Nodes(fs))
  {
    hide Inv, Nodes;
  }

  lemma LoadedIsReady(fs: Fs)
    requires Inv(fs) && HasSystemFiles(Nodes(fs))
    ensures Mountable(ShutdownDisk(fs)) && SystemReady(LoadFs(ShutdownDisk(fs)))
    ensures |ShutdownDisk(fs)| > DATA_START && DecodeSuper(ShutdownDisk(fs)[0]).indicator == INDICATOR
  {
    hide Inv, Nodes, ShutdownDisk, LoadFs;
    RemountReady(fs);
  }

  /** The step of unlink, as the calls it is made of. */
  lemma UnlinkStepIs(fs: Fs, path: seq<byte>, past: Past, d: nat, found: Option<nat>)
    requires Pre(fs, Unlink(path, past))
    requires Seek(fs, Parent(FullPath(path))) == Some(d) && Lookup(fs, d, Leaf(FullPath(path))) == found
    ensures found == None ==> UnlinkStep(fs, path, past) == (fs, Code(-1))
    ensures found.Some? ==>
            var ino, k := found.value, IndexOf(Listing(fs, d), found.value);
            && ino < INODES && k < fs.inodes[d].size / ENTRY_BYTES
            && var fs1 := UnlinkFile(fs, d, k, past);
            && ino < |fs1.inodes| && fs1.inodes[ino].block < BITMAP_BITS
            && UnlinkStep(fs, path, past) == (FreeInode(fs1, ino), Code(0))
  {
    hide RootOk, BitsOk, BlocksOk, DirsOk, ParentsOk, ReachOk, FdsOk, Walk, InTable, Strays, Lookup, FullPath,
         Listing, Shifted;
    if found.Some? {
      UnlinkReady(fs, path, d, found.value);
      ListingLength(fs, d);
      assert InodeShape(fs.inodes[found.value], |fs.disk|);
    }
  }

  lemma OrOne(was: bv32, now: bv32, k: nat, b: nat)
    requires k < 32 && b < 32 && now == was | One(k)
    ensures Bit(now, b) <==> Bit(was, b) || b == 31 - k
  {
    var m := One(k);
    BitOne(k, b);
    BitOr(was, m, b);
  }

  /** A change to the first word that adds one bit adds one position. */
  lemma WordBitSet(was: seq<bv32>, now: seq<bv32>, b: nat)
    requires |was| > 0 && b < 32 && |now| == |was| && now[1..] == was[1..]
    requires forall c: nat :: c < 32 ==> (Bit(now[0], c) <==> Bit(was[0], c) || c == b)
    ensures BitsOf(now) == BitsOf(was) + {b}
  {
    hide One, Bit;
    forall i: nat | i < 32 * |was|
      ensures Has(now, i) <==> Has(was, i) || i == b
    {
      assert i / 32 > 0 ==> now[i / 32] == now[1..][i / 32 - 1] == was[i / 32];
    }
  }

  /** The bit of the root inode. */
  lemma RootBit(was: seq<bv32>, now: seq<bv32>)
    requires |was| > 0 && now == was[0 := was[0] | One(31)]
    ensures BitsOf(now) == BitsOf(was) + {0}
  {
    hide One, Bit, BitsOf;
    forall c: nat | c < 32
      ensures Bit(now[0], c) <==> Bit(was[0], c) || c == 0
    {
      OrOne(was[0], now[0], 31, c);
    }
    WordBitSet(was, now, 0);
  }

  /** The loop of read: bytes from the cursor up to the size or the count. */
  method CopyOut(block: Block, entry: Fd, size: nat, buf: array<byte>, count: nat) returns (moved: Fd, bytesRead: nat)
    requires size <= BLOCK_BYTES && count <= buf.Length
    modifies buf
    ensures bytesRead == ReadCount(size, entry.readPos, count)
    ensures moved == entry.(readPos := entry.readPos + bytesRead)
    ensures buf[..bytesRead] == if bytesRead == 0 then [] else block[entry.readPos..entry.readPos + bytesRead]
    ensures buf[bytesRead..] == old(buf[..])[bytesRead..]
  {
    ghost var was, pos := buf[..], entry.readPos;
    moved, bytesRead := entry, 0;
    while moved.readPos < size && bytesRead < count
      invariant bytesRead <= count && moved == entry.(readPos := pos + bytesRead)
      invariant bytesRead > 0 ==> pos + bytesRead <= size
      invariant forall j :: 0 <= j < buf.Length ==> buf[j] == if j < bytesRead then block[pos + j] else was[j]
    {
      buf[bytesRead] := block[moved.readPos];
      moved := moved.(readPos := moved.readPos + 1);
      bytesRead := bytesRead + 1;
    }
    CopiedIs(was, buf[..], block, pos, bytesRead);
    assert buf[..bytesRead] == buf[..][..bytesRead] && buf[bytesRead..] == buf[..][bytesRead..];
  }

  lemma CopiedIs(was: seq<byte>, now: seq<byte>, block: Block, pos: nat, n: nat)
    requires |now| == |was| && n <= |was| && (n > 0 ==> pos + n <= BLOCK_BYTES)
    requires forall j :: 0 <= j < |now| ==> now[j] == if j < n then block[pos + j] else was[j]
    ensures now[..n] == if n == 0 then [] else block[pos..pos + n]
    ensures now[n..] == was[n..]
  {
    if n > 0 {
      var x, y := now[..n], block[pos..pos + n];
      assert forall j :: 0 <= j < n ==> x[j] == y[j];
    }
  }

  /** The loop of write: bytes into the block from the cursor on; each one also adds one to
      the size of the file. */
  method CopyIn(buf: array<byte>, entry: Fd, inode: Inode, data: seq<byte>)
    returns (moved: Fd, grown: Inode, bytesWritten: nat)
    requires buf.Length == BLOCK_BYTES
    modifies buf
    ensures bytesWritten == WriteCount(entry.writePos, |data|)
    ensures moved == entry.(writePos := entry.writePos + bytesWritten)
    ensures grown == inode.(size := inode.size + bytesWritten)
    ensures buf[..] == if bytesWritten == 0 then old(buf[..])
                       else Written(old(buf[..]), entry.writePos, data[..bytesWritten])
  {
    hide Written;
    ghost var was, pos := buf[..], entry.writePos;
    moved, grown, bytesWritten := entry, inode, 0;
    while moved.writePos < BLOCK_BYTES && bytesWritten < |data|
      invariant bytesWritten <= |data| && (bytesWritten > 0 ==> pos + bytesWritten <= BLOCK_BYTES)
      invariant moved == entry.(writePos := pos + bytesWritten) && grown == inode.(size := inode.size + bytesWritten)
      invariant forall j :: 0 <= j < BLOCK_BYTES ==>
                  buf[j] == if pos <= j < pos + bytesWritten then data[j - pos] else was[j]
    {
      buf[moved.writePos] := data[bytesWritten];
      moved := moved.(writePos := moved.writePos + 1);
      bytesWritten := bytesWritten + 1;
      grown := grown.(size := grown.size + 1);
    }
    if bytesWritten > 0 {
      WrittenIs(was, buf[..], pos, data[..bytesWritten]);
    }
  }

  lemma SplitNames(path: seq<byte>, names: Path, filename: seq<byte>)
    requires Absolute(path) && FullPath(path) == names + [filename]
    ensures Parent(FullPath(path)) == names && Leaf(FullPath(path)) == filename
    ensures NamesOk(FullPath(path)) ==> NamesOk(names) && IsName(filename)
  {
    hide FullPath;
    assert forall k: nat :: k < |names| ==> names[k] == FullPath(path)[k];
  }

  lemma ListingLength(fs: Fs, d: nat)
    requires Shape(fs) && d < INODES
    ensures |Listing(fs, d)| == fs.inodes[d].size / ENTRY_BYTES
  {
  }

  /** The outer loop of unlink_file_in_dir. */
  method FindSlot(block: Block, count: nat, ino: nat) returns (entry: nat)
    requires count <= DIR_FILE_COUNT_MAX
    ensures entry == IndexOf(Entries(block, count), ino)
  {
    hide CStr, FromU32;
    ghost var es := Entries(block, count);
    entry := 0;
    while entry < count
      invariant entry <= count
      invariant forall j :: 0 <= j < entry ==> es[j].ino != ino
    {
      assert es[entry] == DecodeEntry(Slot(block, entry));
      if FromU32(Slot(block, entry)[NAME_BYTES..]) == ino {
        return;
      }
      entry := entry + 1;
    }
  }

  /** The inner loop of unlink_file_in_dir. */
  method ShiftDown(buf: array<byte>, first: nat, count: nat, ghost was: Block, ghost past: Past)
    requires buf[..] == was + past && first < count <= DIR_FILE_COUNT_MAX
    modifies buf
    ensures buf[..BLOCK_BYTES] == Shifted(was, count, first, past)
  {
    ghost var block := buf[..];
    var entry := first;
    assert buf[..] == Moved(block, ENTRY_BYTES * first, ENTRY_BYTES * (first + 1), 0);
    while entry < count
      invariant first <= entry <= count
      invariant buf[..] == Moved(block, ENTRY_BYTES * first, ENTRY_BYTES * (first + 1), ENTRY_BYTES * (entry - first))
    {
      MemMove(buf, ENTRY_BYTES * entry, ENTRY_BYTES * (entry + 1), ENTRY_BYTES);
      MoveMore(block, ENTRY_BYTES * first, ENTRY_BYTES * (first + 1), ENTRY_BYTES * (entry - first), ENTRY_BYTES);
      entry := entry + 1;
    }
  }

  /** One character of seek_directory: a slash or the last character ends a component. */
  lemma NextComponent(path: seq<byte>, i: nat, next: seq<byte>)
    requires 0 < i < |path|
    ensures var after := DropEmptyLast(PiecesFrom(path[i + 1..], []));
            DropEmptyLast(PiecesFrom(path[i..], next)) ==
            if path[i] == SLASH then [next] + after
            else if i + 1 == |path| then [next + [path[i]]] + after
            else DropEmptyLast(PiecesFrom(path[i + 1..], next + [path[i]]))
  {
    assert path[i..][1..] == path[i + 1..];
  }

  lemma WalkEnd(fs: Fs, i: nat)
    requires Shape(fs) && i < INODES
    ensures Walk(fs, i, DropEmptyLast(PiecesFrom([], []))) == Some(i)
  {
  }

  lemma WalkStep(fs: Fs, i: nat, name: seq<byte>, rest: Path)
    requires Shape(fs) && i < INODES && InTable(fs, i, [name] + rest) && NamesOk([name] + rest)
    ensures IsName(name) && NamesOk(rest)
    ensures match Lookup(fs, i, name)
            case None => Walk(fs, i, [name] + rest) == None
            case Some(j) => j < INODES && InTable(fs, j, rest) && Walk(fs, i, [name] + rest) == Walk(fs, j, rest)
  {
    assert ([name] + rest)[1..] == rest;
    assert IsName(([name] + rest)[0]);
    forall k: nat | k < |rest| ensures IsName(rest[k]) {
      assert rest[k] == ([name] + rest)[k + 1];
    }
  }
}
