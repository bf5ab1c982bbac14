# YoRHa kernel: verified model

YoRHa is a small i686 kernel.  This project models the layers that keep its state in memory
and on disk, one resting on the other, and proves what each keeps over every run:

1. **Bitmaps** (`Words`, `Bitmap`).  Ranges of bits in 32-bit words, set, cleared and searched
   with shifted masks.  The masks are `bv32` values with wrap-around; a bitmap means the set of
   its set positions.
2. **Allocators** (`SlotTable`, `Pages`, `Allocator`, `Heap`).  A 256-slot table beside a bitmap,
   used for heap bytes and for physical pages, and the heap's byte memory.
3. **Buffers and strings** (`Memory`, `Pieces`, `Buffers`, `Numbers`).  memmove, the APPEND macro,
   concat and string_split on the heap, and number printing.
4. **Paging** (`Paging`).  The two-level walk of 32-bit paging, and the kernel's own access to its
   tables through the recursive directory slot, with tables taken from the page allocator.
5. **Keyboard ring buffer** (`RingBuffer`).  An interrupt producer interleaved with the steps of
   the reader's loop.
6. **File system** (`Layout`, `Paths`, `Images`, `WordImages`, `FsState`, `FsNames`,
   `FsInvariant`, `FsMachine`, `FsAbstract`, `FsBoot`, `FsStreams`, `FsDetours`, `FsLaws`,
   `FileSystem`).  Inodes,
   bitmaps, directory blocks of bytes, descriptors, format, mount and shutdown.

The imperative code of the kernel is imperative here: classes and arrays whose methods are
proved against functions on values.  The theorems over runs are about those functions.

The file system is proved in two refinements.  `FileSystem` (words, arrays, loops over bytes)
refines `FsMachine` (sets of bits, listings, one step a call), and that refines `FsAbstract`,
whose state is a map from paths to directories, devices and files with contents, and a map of
open descriptors, with no inode, block or bitmap in it.  `FsBoot.RunRefines` and
`FsBoot.ReachableStates` put the steps together over runs of any length, reboots included;
`FsStreams.FileStream` and `FsStreams.FileReadBack` say what a file then is to its user, and
`FsLaws` says of every call which bytes, inode, block and descriptor it reads, takes, changes or
gives back.

A PANIC or a failed ASSERT halts the machine and is a result of its own.  What a call demands of
its caller is a predicate of the state that the caller could check: `FsMachine.Demands` for the
file system, a live pointer for the allocators.  Invariants are not among the demands: a run
(`FsBoot.Run`) says nothing of a state that breaks them, and that there is no such state is proved.

Where the code and its documentation disagree, the model follows the code:

- `alloc_bitrange` documents its capacity as a number of bits and scans a quarter of that many
  words (`Bitmap.Scanned`).
- `close` documents 0 on success and returns -1 always.
- `write` adds every byte it writes to the file size, overwritten ones included, so it overwrites
  correctly exactly when the cursor is at the end (`FsStreams.WriteSplicesIff`), and never right
  after opening a file that is not empty (`FsStreams.OpenThenWrite`).
- `int_to_string` accounts for a minus sign but prints the digits of negative numbers below '0'
  (`Numbers.PrintsNumeralIff`).
- `seek_directory` does not check that the components it passes are directories.  It follows the
  name tree exactly on the paths that do not stray through a file (`FsMachine.SeekFollowsIff`);
  `FsDetours.FileReadAsDirectory` is a run after which it does not.
- Metadata is written by formatting and by shutdown only (`FsLaws.MetadataStays`): a disk that was
  formatted but never shut down holds the root alone, without the devices that the next boot opens
  (`FsLaws.FormattedDisk`).
- `kfree` accepts any pointer its table remembers; one already freed can damage a live block
  (`SlotTable.StaleFreeBreaks`, and exactly when in `SlotTable.FreeAgreesIff`).
- `krealloc` moves as many bytes as the old block had, also into a smaller block: other blocks are
  safe exactly under the condition of `Heap.ReallocKeepsIff`, and `Heap.ShrinkBreaks` is a run in
  which one is destroyed.
- `apply_bitrange` counts words in 16 bits: past them it changes a word below the one meant, or
  never ends (`Bitmap.FitsCounterIff`).
- `map_page` clears a new table through its window, which faults unless the flags contain the
  write flag, because write protection is on; and it puts the flags unmasked into the directory
  entry, which names the allocated frame exactly when flags of 4096 and more add no bit to it
  (`Paging.Pager.MapPage`).
- Formatting writes the root directory's block from a null pointer.  Under the tables of the boot
  code page 0 is not mapped, before and after the heap page is (`Paging.NullFaults`), so on that
  machine the read faults; `FsBoot.FormattedFs` is what formatting leaves where the read returns,
  whatever bytes it returns.  The theorems that start from any state with the invariant
  (`FsBoot.RunRefines`, `FsStreams.FileStream`) do not rest on it.

## Model

| member | source | states |
|---|---|---|
| Words.BitLowOnes | src/util.c:24-38 | `(1 << (32 - s)) - 1` has exactly the bits from position s to 31, for every s up to 32 |
| Bitmap.SameWordMaskCovers | src/util.c:21-33 | the exclusive-or of the two masks of a range inside one word has exactly the bits of the range |
| Bitmap.SpreadMaskCovers | src/util.c:35-43 | the masks of the first, inner and last word of a longer range have exactly the bits of the range in that word |
| Bitmap.ApplyBitRange | src/util.c:8-51 | every bit inside the range becomes set or clear and every other bit of every word is unchanged, whenever the loop ends; the range is taken where the 16-bit word counter starts |
| Bitmap.FitsCounterIff | src/util.c:20-20 | the range is applied where it was meant if and only if its words fit the counter, and otherwise the loop starts at a wrong word or never ends |
| Bitmap.AppliedBits | src/util.c:8-51 | on the set of positions, applying a range is union with or difference by the interval |
| Bitmap.ScanBlocked | src/util.c:61-67 | a set bit rules out every start up to the next candidate, although the aligned scan does not look at the bits it skips |
| Bitmap.ScanWord | src/util.c:59-78 | the inner loop either finds the first fit or extends the scanned, ruled-out prefix by a word |
| Bitmap.ScanForRun | src/util.c:53-82 | the scan returns the least start (least multiple of four if aligned) of a clear run of the wanted length, and length 0 exactly when there is none |
| Bitmap.AllocBitRange | src/util.c:53-82 | the first fit is returned and marked and nothing else changes; without a fit nothing changes |
| Bitmap.DeallocBitRange | src/util.c:84-86 | exactly the bits of the range are removed |
| Bitmap.FirstFitIsFirstClear | src/util.c:53-82 | for one bit, first fit is the least clear position below the limit, and nothing else is |
| SlotTable.AllocKeeps | src/alloc.c:34-53 | an allocation keeps bitmap and table in agreement and live blocks apart, and adds exactly one block that meets no other |
| SlotTable.FreeKeeps | src/alloc.c:55-65 | freeing a live pointer removes exactly its block and keeps the invariant |
| SlotTable.FreeAgreesIff | src/alloc.c:55-65 | freeing any pointer the table knows keeps bitmap and table in agreement if and only if the slot found is utilized or none of its units has been given out again |
| SlotTable.StaleFreeBreaks | src/alloc.c:55-65 | a run of five calls after which freeing an already freed pointer takes units from a live block |
| SlotTable.RoomIsFit | src/alloc.c:34-41 | a place is clear in the bitmap if and only if no live block touches it |
| SlotTable.LiveSize | src/alloc.c:43-52 | the table is full if and only if there are 256 live blocks |
| SlotTable.RunRefines | src/alloc.c:34-65 | in every state of every run the set bits are the disjoint union of the utilized ranges, and every step is a first-fit step on the set of live blocks |
| SlotTable.RunSearchFindsLive | src/alloc.c:55-65 | in every state of every run the search by base pointer that ignores `utilized` stops at the live slot |
| Pages.PageBound | src/alloc.c:137-156 | the first free page lies at most 255 pages above the kernel's reservation, so the 16-bit word counter of the bitmap code is never exceeded |
| Pages.AlwaysFits | src/alloc.c:137-143 | the page bitmap never runs out before the table does |
| Pages.PageRunValid | src/alloc.c:137-168 | every state of every run of allocate_page and free_page keeps the reservation and the table invariant |
| Pages.PageRunRange | src/alloc.c:137-156 | every page handed out in any run is 4096-aligned, lies in [0x400000, 0x400000 + 255 * 4096), was not out before and is out afterwards |
| Allocator.SlotAllocator.Allocate | src/alloc.c:34-53 | halts exactly when inactive, asked for nothing, without a fit or without a slot; otherwise performs the first-fit, lowest-slot step |
| Allocator.SlotAllocator.Free | src/alloc.c:55-65 | halts exactly when inactive or the pointer is unknown; otherwise releases the first slot with the pointer, whatever state earlier frees have left |
| Allocator.PageAllocator.constructor | src/alloc.c:9-24 | after the reservation the kernel owns exactly the first 1024 pages, in slot 0 |
| Allocator.PageAllocator.AllocatePage | src/alloc.c:137-156 | halts exactly when the table is full; otherwise returns a fresh aligned page above the kernel's and adds exactly it to the live ones |
| Allocator.PageAllocator.FreePage | src/alloc.c:158-168 | removes exactly the freed page from the live ones |
| Heap.KernelHeap.Kmalloc | src/alloc.c:34-53 | halts exactly when the size is zero, no place has room or no slot is free; otherwise grants the first place with room and changes no byte |
| Heap.KernelHeap.Kfree | src/alloc.c:55-65 | removes exactly the block of the pointer and changes no byte |
| Heap.KernelHeap.Kcalloc | src/alloc.c:67-72 | halts exactly when kmalloc of the product does; otherwise the new block, at the first place with room, is zero and every other live block keeps its bytes |
| Heap.KernelHeap.Krealloc | src/alloc.c:74-86 | halts exactly when kmalloc of the new size does; otherwise the old block is replaced by one at the first place with room that begins with its bytes, and if it is no smaller every other live block keeps its bytes |
| Heap.ReallocKeepsIff | src/alloc.c:74-86 | krealloc leaves every other live block's bytes alone, for all memory contents, if and only if each is apart from the old length counted from the first place with room for the new size |
| Heap.ShrinkBreaks | src/alloc.c:74-86 | a run of four calls after which shrinking a block destroys a live one |
| Heap.EmptyHeap | src/alloc.c:34-41 | an empty heap grants every size from 1 to 8192 at its bottom and refuses every other |
| Memory.MemMove | src/string.c:100-116 | overlapping moves in either direction act as if through an intermediate buffer |
| Memory.MemSet | src/string.c:89-93 | exactly the addressed bytes take the value |
| Buffers.Grow | include/alloc.h:22-32 | halts exactly when a larger block is needed and refused; otherwise keeps what the buffer holds and every other live block, and moves it only to an address that was not live |
| Buffers.Append | include/alloc.h:22-35 | halts exactly when growing does; otherwise the buffer holds the old bytes and the new element, within its capacity, and every other live block keeps its bytes |
| Buffers.Concat | src/alloc.c:99-106 | any number of appends leaves exactly the appended sequence behind the old one; it halts exactly when one of them is refused by the live blocks its predecessors left |
| Buffers.PushesLaw | include/alloc.h:22-35 | n appends to an empty buffer leave length n and the least power of two, from 2 on, that is no less as capacity |
| Buffers.StringSplit | src/alloc.c:108-135 | the list holds one terminated heap string for every piece of the split, each in its own block, and every block that was live keeps its bytes; whether it halts and which blocks it takes is a function of the live blocks |
| Buffers.ListElement | src/alloc.c:114-116 | an element of the list decodes from the list's bytes to the String that was appended |
| Buffers.StringLayout | include/alloc.h:59-63 | length, capacity and pointer of the struct in memory |
| Pieces.SplitLaw | src/alloc.c:108-135 | joining the pieces gives the string back, and the joints are exactly the delimiters outside quotes (all delimiters without reserve_quotes) |
| Pieces.SplitCount | src/alloc.c:108-135 | there is one piece more than there are splitting delimiters |
| Numbers.IntLen | src/string.c:39-46 | the result is the number of characters int_to_string prints |
| Numbers.IntToString | src/string.c:48-59 | writes exactly those characters and a NUL and nothing else |
| Numbers.DigitsReadBack | src/string.c:48-59 | a number prints without superfluous leading zero as digits of its own sign, '0' to '9' if it is not negative, and these read back as it |
| Numbers.PrintsNumeralIff | src/string.c:48-59 | the printed digits are a numeral of the number if and only if it is not negative |
| Numbers.BuffToHexstring | src/string.c:5-24 | writes eight digits for every word, in order, and nothing else |
| Numbers.HexAllIsDigits | src/string.c:6-9 | only '0' to '9' and 'A' to 'F' are printed |
| Numbers.HexTable | src/string.c:6-9 | the value of such a digit is its place in the table |
| Numbers.HexAllRoundTrip | src/string.c:5-24 | every word is read back from its eight digits |
| Paging.WindowReaches | src/paging.c:18-19 | an address in the self-map window reaches the table its directory slot points at, and may be written exactly if that slot is writable |
| Paging.EntryMaps | src/paging.c:37-39 | writing one table entry maps one page, with the write permission of both levels, and leaves translation and permission of every other address alone |
| Paging.FreshTable | src/paging.c:21-30 | a cleared frame that is no table, entered in an empty slot, changes translation and write permission of the slot's own window and of nothing else |
| Paging.NewFrame | src/paging.c:4-11 | a page the allocator hands out is neither the directory nor a table in use |
| Paging.Pager.AddTable | src/paging.c:21-30 | the new entry names the allocated frame with the high flags added, and the table it names is empty; if the flags keep the frame, tables stay distinct and owned |
| Paging.EntryFrame | src/paging.c:26-26 | a directory entry names the frame it was made for if and only if flags of 4096 and more add no bit to the frame number |
| Paging.EntryBit | src/paging.c:26-37 | an entry has exactly the bits of the address, those of the flags, and the present bit |
| Paging.Pager.MapPage | src/paging.c:13-40 | for all flags, faults and halts are characterised exactly; the mapping names the allocated table if and only if the flags keep its frame, and then every offset of the page translates to the physical page plus offset and every other address as before, save the new table's window; the page may be written exactly if the flags or the address say so, both entries are stored bit for bit, and no other permission changes |
| Paging.Pager.GetPhysAddr | src/paging.c:42-58 | reading through the windows agrees with the processor's walk for every address |
| Paging.Pager.InitializeHeap | src/alloc.c:26-31 | halts exactly when fewer than two slots are free; otherwise the heap page is mapped at its own address and may be written, and nothing else but its table's window changes |
| Paging.BootOk | src/boot.s:90-96 | the tables the boot code leaves satisfy the paging invariant |
| Paging.NullFaults | src/boot.s:115-115 | page 0 is not mapped, at boot and after the heap page has been mapped |
| RingBuffer.PutAppends | src/io.c:77-83 | a character goes behind the pending ones, none of which is overwritten, and is dropped exactly when 63 are pending |
| RingBuffer.NextKeeps | src/file_handlers.c:14-25 | every single step of handler or reader keeps the protocol invariant |
| RingBuffer.DropsOnlyWhenFull | src/io.c:77-83 | in every state of the protocol a character is lost if and only if 63 are pending |
| RingBuffer.EveryInterleaving | src/file_handlers.c:14-25 | under every interleaving the delivered characters are a prefix of the accepted ones, and between reads the rest is exactly what is pending |
| RingBuffer.OneCallDelivers | src/file_handlers.c:16-25 | one call, under every interleaving, delivers at most what was asked for, returns only with all of it or an empty buffer, and within 3 * count + 1 steps of its own |
| RingBuffer.QuietCallDelivers | src/file_handlers.c:16-25 | without a key meanwhile it delivers exactly the first characters pending, as many as asked for and there |
| RingBuffer.InputBuffer.KeyboardHandler | src/io.c:56-85 | shift keys and releases change the shift state only; another press is queued from the table for that state |
| RingBuffer.InputBuffer.Read | src/file_handlers.c:14-25 | delivers the oldest pending characters, as many as asked for and available, and keeps the rest |
| Layout.Strcmp | src/string.c:118-124 | returns zero exactly when the two C strings are equal, and otherwise the sign of the first difference of signed characters |
| Layout.LinkAppends | src/fs.c:283-288 | the stores of linking append one entry to the listing |
| Layout.LinkedElsewhere | src/fs.c:283-288 | no byte outside the entry's name and number changes |
| Layout.UnlinkRemoves | src/fs.c:301-310 | the shift of unlinking removes one entry and keeps the order of the others, in a full directory too, whatever bytes lie past the buffer |
| Layout.ShiftedElsewhere | src/fs.c:301-310 | no byte before the removed entry or past the last one changes |
| Layout.FindNameFirst | src/fs.c:161-185 | of several entries with a name the first is found |
| Layout.LinkThenUnlink | src/fs.c:270-312 | linking and unlinking restores the listing |
| Paths.ParsePath | src/fs.c:141-156 | the path is cut at its last slash: the directory part has all names but the last |
| Paths.TrailingSlash | src/fs.c:97-131 | a directory path with and without one trailing slash has the same components |
| Paths.FullPathLaw | src/fs.c:97-131 | the names of a path joined with slashes are the path, and none has a slash |
| Paths.ComponentsLaw | src/fs.c:97-131 | a directory path has the same names but for one last empty one |
| FsNames.ResolveInjective | src/fs.c:212-291 | no inode has two paths |
| FsNames.ResolveCreated | src/fs.c:212-291 | creation adds exactly the new path; every other path leads to the same inode as before |
| FsNames.ResolveUnlinked | src/fs.c:569-595 | unlink removes exactly the path of the file; every other path leads to the same inode as before |
| FsInvariant.CreateKeeps | src/fs.c:212-291 | creation keeps distinct marked data blocks, unique names, one entry an inode, parents and reachability |
| FsInvariant.UnlinkKeeps | src/fs.c:569-595 | unlink keeps the same invariant |
| FsInvariant.OneEntry | src/fs.c:270-312 | a live inode other than the root has exactly one directory entry, in the directory it names as its parent |
| FsAbstract.ParentLinks | src/fs.c:234-262 | the path of an inode is its parent's path and its name, so parent links form a tree rooted at inode 0 |
| FsMachine.WalkResolves | src/fs.c:97-131 | the fold of lookups over the components equals resolution in the name tree if and only if no component is found in an inode that is no directory by a fold that comes to its end |
| FsMachine.SeekFollowsIff | src/fs.c:80-139 | seek_directory returns the directory of the name tree if and only if it does not stray through a file to an inode of directory type |
| FsDetours.FileReadAsDirectory | src/fs.c:97-131 | on a formatted disk, creating /f and writing 36 bytes to it makes seek_directory take /f/x for the root, although the tree has no such path |
| FsAbstract.StepRefines | src/fs.c:327-480 | create, mkdir, open, close, read, write and unlink do to the tree of names and contents what the specification says, with its results, and keep the invariant |
| FsAbstract.OtherNode | src/fs.c:449-480 | a write to one file changes no other file's bytes and no directory |
| FsLaws.ReadLaw | src/fs.c:417-447 | a read returns the bytes at its cursor, as many as asked for or all that are left, and moves only the cursor |
| FsLaws.WriteLaw | src/fs.c:449-480 | a write at any cursor puts its bytes there up to the end of the block, returns their number, and adds it to cursor and size; nothing else changes |
| FsLaws.CreateLaw | src/fs.c:212-363 | create fails exactly if the parent is no directory or the name is taken; otherwise it adds exactly the path and takes the lowest free inode, block and descriptor |
| FsLaws.OpenLaw | src/fs.c:372-409 | open fails exactly if the tree has no such path; otherwise the lowest free descriptor is at the start of its inode |
| FsLaws.CloseLaw | src/fs.c:411-415 | close frees the descriptor and nothing else |
| FsLaws.UnlinkLaw | src/fs.c:569-595 | unlink removes exactly the path and gives back exactly its inode and block |
| FsLaws.StepLosesNone | src/fs.c:212-595 | no call loses a block |
| FsLaws.RunLosesNone | src/fs.c:22-610 | in every state of every run from a formatted disk on, every marked block belongs to the metadata, the root or a live file |
| FsLaws.MetadataStays | src/fs.c:212-480 | no call writes disk blocks 0 to 7 |
| FsBoot.LoadShutdown | src/fs.c:597-610 | the metadata shutdown writes is read back unchanged by a mount |
| FsBoot.RemountKeeps | src/fs.c:22-39 | shutdown and mount keep both bitmaps, the inode table, every name and every byte of every file |
| FsBoot.FormattedTree | src/fs.c:41-77 | a formatted disk holds the root, /dev and its two devices and nothing else |
| FsLaws.FormattedDisk | src/fs.c:41-77 | the disk that formatting leaves is recognised by the next boot, with the super block of its size, the root inode, the marked blocks 0 to 8, and the root alone as its tree |
| FsBoot.SystemFilesStay | src/file_handlers.c:62-86 | no event removes the system files, so a reboot never finds them missing |
| FsBoot.RunKeeps | src/fs.c:327-610 | every state of every run satisfies the invariant, none assumed but the first, and system files stay |
| FsBoot.RunRefines | src/fs.c:327-610 | every run of calls and reboots is a run of the specification, in its tree and in every result |
| FsBoot.ReachableStates | src/fs.c:22-610 | from a formatted disk on, every state of every run satisfies the invariant and has the system files, and the last has the tree the specification computes |
| FsStreams.StreamLaw | src/fs.c:417-480 | a file used through one descriptor holds what was written, cut at 4096 bytes, and what was read is its beginning, whatever happens on other paths meanwhile |
| FsStreams.FileStream | src/fs.c:417-480 | the same of every run of the file system itself |
| FsStreams.FileReadBack | src/fs.c:417-480 | in a run that ends with a read of at least a block, everything written, cut at 4096 bytes, has been read back |
| FsStreams.CreateStartsStream | src/fs.c:368-370 | a create step that succeeds leaves such a file, empty, whatever its block held before |
| FsStreams.WriteSplicesIff | src/fs.c:449-480 | a write step through a cursor inside the file leaves the old contents with the data spliced in at the cursor if and only if the cursor is at the end or nothing is written |
| FsStreams.OpenThenWrite | src/fs.c:372-480 | after opening a file that is not empty, the first write does not splice |
| Images.BitmapRoundTrip | src/fs.c:607-608 | a bitmap survives being written to a block and read back |
| Images.BitmapLayout | src/fs.c:607-608 | position n is bit 31 - n % 32 of little-endian word n / 32 |
| Images.TableRoundTrip | src/fs.c:609-609 | the inode table survives its 48-byte layout across five blocks |
| Images.TableLayout | src/fs.c:609-609 | 48 bytes an inode, each field at its offset |
| Images.SuperRoundTrip | src/fs.c:606-606 | the super block survives its layout |
| Images.SuperLayout | src/fs.c:606-606 | each field of the super block at its offset |
| WordImages.WordsImageIs | src/fs.c:607-608 | the memory of a bitmap array is the image of the set of its bits |
| WordImages.LoadBitmap | src/fs.c:34-35 | an array read from a block has exactly the bits of the image |
| FileSystem.AllocBit | src/fs.c:238-249 | one-bit allocation takes the least clear bit although the scan could leave the array |
| FileSystem.FindEntry | src/fs.c:161-185 | the search returns the inode of the first entry with the name |
| FileSystem.FileSystem.SeekDirectory | src/fs.c:80-139 | the character loop equals the fold of lookups over the components, through files as through directories |
| FileSystem.FileSystem.LinkFileInDir | src/fs.c:270-291 | performs the linking step on the directory block and size |
| FileSystem.FileSystem.UnlinkFileInDir | src/fs.c:293-312 | performs the removal step for the first entry with the inode, and nothing if there is none |
| FileSystem.FileSystem.CreateFiletype | src/fs.c:327-363 | performs the create step with its result |
| FileSystem.FileSystem.OpenPath | src/fs.c:372-409 | performs the open step with its result |
| FileSystem.FileSystem.CloseFile | src/fs.c:411-415 | frees exactly the descriptor and returns -1 |
| FileSystem.FileSystem.ReadFile | src/fs.c:417-447 | performs the read step; the buffer receives exactly the bytes read |
| FileSystem.FileSystem.WriteFile | src/fs.c:449-480 | performs the write step with its result |
| FileSystem.FileSystem.UnlinkPath | src/fs.c:569-595 | performs the unlink step with its result |
| FileSystem.FileSystem.Shutdown | src/fs.c:597-610 | the disk is the synchronised one and the system descriptors are closed |
| FileSystem.FileSystem.Initialize | src/fs.c:22-77 | mounts a disk that carries the indicator and panics exactly if a device is missing from it; formats any other |
| FileSystem.Reboot | src/fs.c:22-610 | shutting down and booting another machine from the disk left behind is the reboot of the runs |

## Left out

- ATA port I/O, interrupt and descriptor table set-up, serial ports, VGA output, the boot
  assembly and the shell: hardware plumbing and user interface.  The disk is a sequence of blocks.
- `seek`, `list_dir` and `str_list_dir`, `load_process`, `enable_paging`, `free_string_list` and
  `str_count`: unfinished, display only, or without a settled meaning.
- FsBoot.RemountKeeps: a mount reads five blocks, 20480 bytes, into an inode table of 20448, and
  shutdown writes as many; the 32 bytes past the table, on the disk and in memory, are not
  modelled.  If the descriptor table lies there, descriptors open at shutdown come back as taken.
- FsBoot.FormattedTree: describes formatting on a machine where the null page can be read.
- FileSystem.FileSystem.Initialize: a disk that carries the indicator but whose metadata break the
  invariant, or that has no /dev, whose lookup would index the inode table with -1.
- The devices behind special files: read and write are modelled for normal files; a special file
  only exists, is opened and is closed.
- The two heap buffers that `Path` takes and returns on every call, and the error message buffer.
- The cleanup in `create_filetype` after a failed descriptor allocation: with a free descriptor
  demanded it is not reached, and it releases an inode bit it did not take.
- Buffer overruns of the original that precede any effect: names of 32 characters and more, the
  one byte too short `dir_path` of `unlink`, a 114th directory entry, a 427th inode, a 33rd
  descriptor, and paths through a file whose forged entries name inodes past the table.
- unlink of special files, directories and open files: the original would release block 0, orphan
  children, or leave a descriptor on a free inode.
- The page tables of slot 1023, the translation buffer (reloaded after every table write), and
  physical pages beyond the 4 KiB that are mapped for the heap.
- Byte order inside the memset of a page table: it is modelled as 1024 stores of zero words.
- Zero-length ranges that start on a word boundary other than 0: the shift by 32 they lead to has
  no defined result.
