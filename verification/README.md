# Verified model of the kernel's file system, frame allocator, scheduler and key ring

This project models four parts of a small x86-64 kernel and proves what they keep over all their runs.

* **File system** (`kernel/src/fs.c`). A disk is a sequence of 512-byte sectors: superblock, allocation
  bitmap, last-id sector, 128 sectors of 64-byte entries, storage. A file is a chain of regions of 8
  sectors; the last 8 bytes of a region name the next one, and 0 or 2^64-1 ends the chain. The directory
  tree is encoded by parent ids in the entries.
* **Frame allocator** (`kernel/src/pmm.c`). A bitmap of 4096-byte frames that lies in the memory it manages.
* **Scheduler** (`kernel/src/pit.c`, with the task calls of `kernel/src/main.c`). Round robin over 16 slots.
* **Key ring** (`kernel/src/keyboard.c`). A 256-slot ring filled by an interrupt that can come between any
  two memory accesses of its reader.

Each operation appears twice: as a function on values (modules such as `Regions`, `FileSystem`, `Tasks`), and
as a method on buffers, arrays and global variables with the loops of the source (`Bitmap`, `FileData`, `Table`,
`PathBuffers`, `PathCalls`, `Calls`, `Listing`, `Mount`, `FrameAllocator.Pmm`, `Scheduler.Kernel`,
`KeyRing.Keyboard`), proved to compute that function; `Perform` ties the
events of the runs to those methods. What the system is for is then proved about the
functions: round trips, separation, conservation, invariants over runs, and when each call succeeds (`Outcomes`).

The state invariants are `FileSystem.ImageOk` (every run keeps it, whatever is removed), `Separation.Separated`
(files own disjoint chains, and free regions have no old pointers), and `Order.Ordered` (the entries form a tree in
which every entry is found by its path). A call keeps `Separated` if and only if it does not remove a file of
several regions, and `Ordered` if and only if it adds no unnamed or doubly named entry and removes no file that has
children. `Ownership` and `Sharing` follow what a lost `Separated` leads to, up to a run in which two live files
share a region. An image has the superblock sector as one of its parts, so every contract about the image of a volume
also says that the superblock is left alone, and `Mount` follows a volume through format, calls and mounts.

`dafny verify dfyconfig.toml` checks everything.

## Where the code differs from what one would expect

These are modelled as the code has them, each with the exact condition or a witness:

* Region 0 can be allocated, but a pointer to region 0 reads as the end of a chain. A write is read back in
  full exactly when it fits the file's old regions or bit 0 was set before (`Transfers.WriteReadsBack`).
  `Reachable.WriteCutShort` is a run of four calls from a formatted disk in which it is not.
* A removal frees bits and leaves pointers. A later write through a freed region's old pointer lands in
  whatever file owns that region now: `Sharing.RemovalThenShared` is a run from a formatted disk after which
  reading one file returns what was written to another. The removal itself takes nothing from the other files,
  however many regions it frees (`Ownership.RmKeepsOthers`); it keeps the invariant that free regions have no
  pointers exactly when the file has one region (`Separation.RmSeparated`). Once that is lost, it is a creation
  that puts a region into two files, exactly when the region it takes has an old pointer (`Ownership.MkOwnedIff`).
* A format clears the bitmap and the table and leaves storage as it was, with the pointers of an earlier volume.
  Every state from then on keeps the separation invariant exactly when no region has such a pointer and only
  one-region files are removed (`Mount.FormatThenRun`).
* Taken regions can end up with no owner: the tail of a file that is rewritten shorter, and everything behind a
  pointer to region 0. `Leaks.WriteUnowned` says exactly which regions a write drops, and that it drops none
  exactly when the data needs the whole old chain and either fits it or finds region 0 taken.
* A removal takes the byte size for a number of sectors. The count that results is never too small
  (`Chains.CountEnough`), and the end-of-chain pointer stops it from freeing too much (`Chains.WriteThenFree`).
* Creating with a full table reports success. The path then resolves exactly when there was a free slot
  (`Creation.MkFileResolves`, `Creation.MkDirResolves`); with a full table the region taken belongs to no file
  (`Leaks.MkUnowned`).
* A creation at a path that ends in '/' adds an entry without a name, and one at a path that exists adds a second
  entry with the same name. These, and what makes orphans, are exactly what puts a first entry out of reach of every
  path (`Order.OrderedIff`, `Order.StepOrdered`).
* A directory that is created and removed gives its id back (`Creation.MkDirRmDir`). From that id as current
  directory a relative creation goes to the root, and its own path does not find it (`Creation.StaleDirectory`);
  `Creation.MkFileResolves` has the exact condition. A copy from such an id to a new destination whose path is one
  of the longest there are reads the destination instead of its source: it reports success and stores zeros
  (`Transfers.CopyOfNew`).
* `path_to_abs` clears its static result before it reads its argument. Called on that result, as
  `kernel/src/main.c:976` does for a relative path, it loses the path and returns the directory's path over and
  over (`PathCalls.FsPathToAbsOwn`).
* A file can be a parent, and removing it is not refused: that, and nothing else, makes orphans
  (`Tree.StepTree`); `Reachable.OrphanMade` is a run of three calls from a formatted disk that does. An orphan's
  parent id is never given out again (`FileSystem.NewIdUnreferenced`).
* The bitmap has a bit for about one in eight sectors of the disk (`Mount.FormattedLayout`); storage behind the last
  of them is never used.
* A directory's name may be "." or "..". Going up by its path then does not come to its parent, unless that is the
  root (`Order.UpIsParent`, `Reachable.DotDotNamed`).
* On a disk of 131 sectors a format succeeds and the next mount formats again (`Mount.FormatThenMount`).
* Deleting a task does nothing while all 16 slots are in use, and finds the first task with the name, ended
  ones included (`Tasks.DeleteEffect`). A task name of 32 or more characters has no NUL of its own and is seen
  continued by the run path (`Tasks.CreatedName`).

## Model

| member | source | states |
|---|---|---|
| Regions.PtrOfSpelledOut | kernel/src/fs.c:769-774 | The next pointer is the eight last bytes of a sector, weighted by powers of 256 |
| Regions.PutNext | kernel/src/fs.c:813-853 | Writing a region sets that region's pointer and no other region's |
| Regions.RegionUsed | kernel/src/fs.c:782-784 | All bytes of a region but the last eight belong to the file |
| Regions.FirstFit | kernel/src/fs.c:592-631 | The lowest run of clear bits of the asked length: clear, inside the bitmap, and no lower one exists |
| Regions.FirstFitOnGrid | kernel/src/fs.c:592-631 | On a bitmap that changes by whole regions the first fit is a region, never a window across two |
| Regions.WriteFrom | kernel/src/fs.c:786-857 | A write from any reachable state keeps the bitmap region-wise and every pointer inside the grid, and records no more than it was given |
| Regions.FreeKeepsGrid | kernel/src/fs.c:1021-1062 | So does a removal, however many regions it looks at |
| Chains.WriteTouches | kernel/src/fs.c:786-857 | A write changes only sectors of the regions it visits, clears no bit, and sets only bits of those regions |
| Chains.WriteVisits | kernel/src/fs.c:813-840 | A write follows the old chain and then takes free regions, each once; all of them end up marked, and free regions still end their chains |
| Chains.WriteHolds | kernel/src/fs.c:786-857 | After a write the visited regions hold the data in order, zero padded, each pointing at the next and the last at 0 |
| Chains.WriteSize | kernel/src/fs.c:841-856 | The recorded size fits the visited regions and needs all but the last |
| Chains.WriteRunsOut | kernel/src/fs.c:825-841 | A write that records less than the data has filled whole regions and left no free one |
| Chains.RoundTrip | kernel/src/fs.c:786-940 | Reading after a write gives back the data; it stops at the old chain's end when the chain had to grow while region 0 was free |
| Chains.WriteKeepsOthers | kernel/src/fs.c:786-857 | A write leaves the chain and the bytes of every file with a disjoint chain as they were |
| Chains.WriteLinked | kernel/src/fs.c:813-853 | After a write the file's chain is the visited regions up to a pointer to region 0, and it is sound again |
| Chains.FreeExact | kernel/src/fs.c:1029-1061 | Looking at enough regions clears exactly the bits of the chain |
| Chains.CountEnough | kernel/src/fs.c:1026-1029 | For every region size and every byte size, the removal's region count covers the file |
| Chains.WriteCounted | kernel/src/fs.c:782-856 | Whatever size a write records, the count covers every region it visited |
| Chains.WriteThenFree | kernel/src/fs.c:1021-1062 | Removing after a write clears exactly the bits of the chain the write left |
| Chains.TakeWriteFree | kernel/src/fs.c:684-690 | Taking a region, writing any data from it and removing it restores the bitmap bit for bit, when region 0 is taken or is the region itself |
| Bits.SetBit | kernel/src/fs.c:53-61 | The byte operation sets one bit and keeps the other seven |
| Bits.ClearBit | kernel/src/fs.c:63-71 | The byte operation clears one bit and keeps the other seven |
| Bytes.LeValueOfBytes | kernel/src/fs.c:776-780 | Little-endian bytes of a value have that value |
| Bytes.LeBytesOfValue | kernel/src/fs.c:769-774 | Every byte string is the encoding of its value |
| Entries.DecodeEncode | kernel/src/fs.c:42-51 | An entry survives its 64 bytes |
| Entries.FieldsAt | kernel/src/fs.c:42-51 | Where each field lies in an entry's 64 bytes |
| Entries.EncodeDecode | kernel/src/fs.c:42-51 | Every 64 bytes are the encoding of what they decode to |
| Disk.BitWritten | kernel/src/fs.c:53-61 | Rewriting one bitmap byte changes one bit of the bitmap and nothing else the sectors mean |
| Disk.EntryWritten | kernel/src/fs.c:104-135 | Rewriting one slot changes one entry and nothing else the sectors mean |
| Bitmap.BitmapSet | kernel/src/fs.c:53-61 | On disk, one bit is set and everything else keeps its meaning |
| Bitmap.BitmapClear | kernel/src/fs.c:63-71 | On disk, one bit is cleared and everything else keeps its meaning |
| Bitmap.GetDataRegion | kernel/src/fs.c:592-631 | The nested scan returns the first fit, whatever bytes lie behind its 512-byte buffer |
| WholeBytes.BytesAreWhole | kernel/src/fs.c:684-690 | While regions are 8 sectors every bitmap byte is 0x00 or 0xFF, and 0x00 exactly when its region is free |
| WholeBytes.ScanFindsZeroByte | kernel/src/fs.c:592-631 | The bit scan returns 8 times the index of the first zero byte |
| WholeBytes.ReadyBytes | kernel/src/fs.c:825-835 | Both hold between any two calls on a mounted volume |
| FileData.FsPtrFromSector | kernel/src/fs.c:769-774 | Reads the pointer of a sector buffer |
| FileData.FsPtrToSector | kernel/src/fs.c:776-780 | Stores a pointer that reads back as itself; the payload stays |
| FileData.WriteRegion | kernel/src/fs.c:800-853 | One pass of the outer loop is one step of the write on values |
| FileData.FsWriteFileInside | kernel/src/fs.c:786-857 | The write loops on disk give exactly the store and entry of the write on values, for a byte count or a C string |
| FileData.FsReadFileInside | kernel/src/fs.c:900-940 | The read puts the chain's bytes and a NUL in the buffer and leaves the rest of it alone |
| FileData.FreeFileRegions | kernel/src/fs.c:1021-1062 | The removal loops clear exactly the bits of the removal on values |
| Table.FsStrcmp | kernel/src/somthings.c:27-39 | Nonzero exactly when the first 24 characters agree up to the NUL |
| Table.NameAndParentIdToId | kernel/src/fs.c:180-206 | The id of the first slot with this name and parent, or 2^64-1 when there is none |
| Table.FindEntryById | kernel/src/fs.c:979-1008 | Finds the first slot with an id and its contents; 0 and 2^64-1 are refused |
| Table.DirHasChildren | kernel/src/fs.c:1064-1082 | True exactly when a live entry has this parent |
| Table.MaxIdIs | kernel/src/fs.c:1209-1234 | The maximum is an upper bound of all ids and one of them, or 0 |
| Table.ReadFromFsTableLastId | kernel/src/fs.c:1209-1234 | The scan returns that maximum |
| Table.ReadLastIdFromDisk | kernel/src/fs.c:1236-1249 | Returns the number stored in the last-id sector |
| Table.ReloadLastIdToDisk | kernel/src/fs.c:1251-1261 | Stores the maximum id and changes no other sector |
| Table.WriteEntryToTable | kernel/src/fs.c:104-135 | The entry goes to the first free slot; with none the table is unchanged and an error returned |
| Table.EraseTableEntry | kernel/src/fs.c:1010-1019 | One slot becomes free, nothing else changes |
| Paths.SplitAbsolute | kernel/src/fs.c:449-568 | Splitting undoes joining |
| Paths.ResolveCanonical | kernel/src/fs.c:449-568 | The resolved path is "/" and joined words, none empty, "." or "..", and at most one character longer than the input |
| Paths.ResolveFixed | kernel/src/fs.c:449-568 | Resolving leaves a path alone exactly when it is canonical |
| Paths.ResolveTwice | kernel/src/fs.c:449-568 | Resolving twice is resolving once |
| Paths.FollowAppend | kernel/src/fs.c:525-537 | Words followed one after the other compose |
| Paths.ResolveSplit | kernel/src/fs.c:449-568 | Only the components of a path count: repeated slashes and a missing first one make no difference |
| Paths.DotDotCancels | kernel/src/fs.c:525-537 | A name and the ".." behind it can be taken out of a path together, wherever they are |
| Paths.DotDotAtRoot | kernel/src/fs.c:525-537 | ".." at the root stays at the root |
| Paths.DotDropped | kernel/src/fs.c:525-537 | A "." can be taken out of a path anywhere |
| PathBuffers.FoldDots | kernel/src/fs.c:525-537 | The stack of word indices is the fold over "." and ".." |
| PathBuffers.PathResolve | kernel/src/fs.c:449-568 | The in-place algorithm writes the resolved path and a NUL whenever they fit its 1024-byte buffer, also when the input is that buffer |
| Names.LookupEntry | kernel/src/fs.c:180-206 | With unique names, looking an entry's name up under its parent finds it |
| Names.WalkNotFound | kernel/src/fs.c:440-446 | A component not found stays not found to the end of the walk |
| Names.PrintThenParse | kernel/src/fs.c:208-447 | Looking up the printed path of a live entry with live ancestors gives the entry back |
| Names.ParseThenPrint | kernel/src/fs.c:208-447 | Printing what a canonical path resolves to gives the path back |
| Names.LookupAdded | kernel/src/fs.c:104-135 | Adding an entry changes the lookup of one name under one parent |
| Names.WalkAdded | kernel/src/fs.c:369-447 | After adding under an unresolved name, every walk finds what it found, or the new entry exactly when it is the path to it |
| PathNames.CanonicalParts | kernel/src/fs.c:308-331 | The last '/' of a canonical path separates its last word from its directory's path |
| PathNames.TrailingSlash | kernel/src/fs.c:308-658 | A path that ends in '/' has no last name, and its directory is that of the path without the '/' |
| PathNames.CanonicalParent | kernel/src/fs.c:633-658 | The parent used by a creation is what the directory's words lead to |
| PathNames.ParentBound | kernel/src/fs.c:633-658 | A resolved parent id is at most the last id |
| PathCalls.Collect | kernel/src/fs.c:208-306 | The recursion fills the scratch rows with the names up to the root |
| PathCalls.IdToPath | kernel/src/fs.c:208-306 | Writes the printed path and a NUL; its globals are left as found, so every later call works too |
| PathCalls.ShortPathsPrint | kernel/src/fs.c:38-40 | A path that fits its buffer also fits the 512 scratch rows |
| PathCalls.FsPathToId | kernel/src/fs.c:369-447 | The tokenising loops return what walking the words finds |
| PathCalls.FsPathToAbs | kernel/src/fs.c:570-590 | Returns the path itself or its directory's path with it appended, cut to the buffer |
| PathCalls.FsPathToAbsOwn | kernel/src/fs.c:570-590 | Called on its own static result it returns the directory's path repeated to 1023 characters, whatever was passed |
| PathCalls.PathToName | kernel/src/fs.c:308-331 | Returns what follows the last '/', zero padded |
| PathCalls.FPathToPath | kernel/src/fs.c:633-658 | Returns the id of the directory the last name is in |
| FileSystem.NewIdUnreferenced | kernel/src/fs.c:674-694 | A new id is above every id in use and every parent id, so no orphan is adopted |
| FileSystem.MkFileKeepsOk | kernel/src/fs.c:660-696 | Creating a file keeps the invariant, from any current directory |
| FileSystem.MkDirKeepsOk | kernel/src/fs.c:736-765 | So does creating a directory |
| FileSystem.WriteKeepsOk | kernel/src/fs.c:859-896 | So does a write of any size |
| FileSystem.RmFileKeepsOk | kernel/src/fs.c:1157-1170 | So does removing a file |
| FileSystem.RmDirKeepsOk | kernel/src/fs.c:1172-1187 | So does removing a directory |
| FileSystem.CopyKeepsOk | kernel/src/fs.c:1412-1449 | So does a copy, however far it gets |
| FileSystem.RemountChangesNothing | kernel/src/fs.c:1488-1493 | Recomputing the last id gives the value that is there |
| FileSystem.Run | kernel/src/fs.c:660-1449 | Every run of creations, writes, removals, copies and mounts keeps it: ids unique, last id the maximum, parent ids below ids, bits region-wise, pointers in the grid |
| FileSystem.RunKeepsShape | kernel/src/fs.c:660-1449 | No run changes the superblock or the number of sectors and bits |
| Tree.AllRooted | kernel/src/fs.c:208-306 | Without orphans every entry has live ancestors up to the root, as the printer needs |
| Tree.OrphanPath | kernel/src/fs.c:208-306 | An orphan prints as if it were in the root directory, and an id without an entry prints as the root |
| Tree.ParentLive | kernel/src/fs.c:633-658 | A creation's parent is the root, a live entry, or not found, even from a deleted current directory |
| Tree.StepTree | kernel/src/fs.c:660-1187 | A call makes an orphan if and only if it removes a file that has children |
| Tree.RunTree | kernel/src/fs.c:660-1261 | Over every run without such removals the table stays a tree |
| Order.OrderedIff | kernel/src/fs.c:208-447 | Some path leads to every live entry if and only if there are no orphans, every name is a word and no directory has a name twice |
| Order.UpIsParent | kernel/src/fs.c:449-568 | Resolving a live entry's path with "/.." behind it and looking that up gives its directory, if and only if that is the root or no name on the path is "." or ".." |
| Order.RelativeMeans | kernel/src/fs.c:570-658 | From a directory that the root leads to, a relative path means the walk from there, and a creation goes where the walk along all words but the last leads |
| Order.LookedUpFrom | kernel/src/fs.c:369-447 | A relative path is looked up from the current directory, and "." is that directory |
| Order.DirectoryOf | kernel/src/fs.c:633-658 | The directory of a relative path is looked up in the same way; of a single word it is the current one |
| Order.AddedName | kernel/src/fs.c:104-135 | An added entry keeps every name a word if and only if its own name is not empty |
| Order.AddedUnique | kernel/src/fs.c:104-135 | It keeps names unique if and only if its name was not found in its directory |
| Order.StepOrdered | kernel/src/fs.c:660-1449 | A call keeps a tree with unique, nonempty names if and only if it adds no unnamed or doubly named entry and removes no file with children; a copy adds one exactly when its source fits and its destination is new |
| Order.RunOrdered | kernel/src/fs.c:660-1449 | Every state of a run is such a tree if and only if all its calls are of that kind |
| Order.RunPathsResolve | kernel/src/fs.c:208-1449 | After every such run, every live entry whose path fits its buffer is found by its printed path |
| Separation.MkFileSeparated | kernel/src/fs.c:660-696 | A creation keeps files on disjoint sound chains |
| Separation.WriteSeparated | kernel/src/fs.c:786-896 | So does a write |
| Separation.WriteKeepsOtherFiles | kernel/src/fs.c:786-896 | A write leaves the entry and every byte of every other file |
| Separation.FreeEndsAfterFree | kernel/src/fs.c:1021-1062 | A removal clears the chain's bits; free regions keep ending their chains exactly when it had one region |
| Separation.RmFileSeparated | kernel/src/fs.c:1157-1170 | Removing a one-region file keeps files separate |
| Separation.RmSeparated | kernel/src/fs.c:1157-1170 | A removal keeps the separation invariant if and only if the file has one region; what fails otherwise is that free regions have no pointers |
| Separation.CopySeparated | kernel/src/fs.c:1412-1449 | A copy keeps files separate |
| Separation.StepSeparated | kernel/src/fs.c:660-1449 | A call keeps the separation invariant if and only if it does not remove a file of several regions |
| Separation.RunSeparated | kernel/src/fs.c:660-1261 | Over every run that removes only one-region files, live files have disjoint, acyclic, marked chains |
| Separation.RunSeparatedIff | kernel/src/fs.c:660-1261 | Every state of a run satisfies the separation invariant if and only if the run removes only one-region files |
| Ownership.SeparatedMeans | kernel/src/fs.c:1021-1062 | The separation invariant is: live files have disjoint chains, and free regions end their chains |
| Ownership.RmKeepsOthers | kernel/src/fs.c:1021-1170 | Removing a file of any number of regions leaves every other file its entry, its chain and its bytes |
| Ownership.RmKeepsOwned | kernel/src/fs.c:1021-1170 | So no removal makes live files share a region |
| Ownership.MkOwnedIff | kernel/src/fs.c:660-696 | A creation keeps live files' chains disjoint if and only if the region it takes has no old pointer |
| Spared.StepSpares | kernel/src/fs.c:660-1449 | A call that does not write a file, copy onto it or remove it leaves its entry, its slot and every byte |
| Spared.RunSpares | kernel/src/fs.c:660-1449 | So does every run of such calls that removes only one-region files |
| Removal.StalePointerFollowed | kernel/src/fs.c:813-824 | A write past a region with an old pointer replaces what the region pointed at reads as |
| Removal.FreedThenShared | kernel/src/fs.c:1029-1061 | The two regions of a removed file are the next two taken, and a write from the first goes on in the second |
| Sharing.RemovalThenShared | kernel/src/fs.c:660-1170 | A run of seven calls on a formatted volume after which reading one file returns what was written to another, and no assignment of regions keeps the files apart |
| Reachable.WriteCutShort | kernel/src/fs.c:592-940 | A run of four calls on a formatted volume after which a file of two regions' recorded size reads back as one region's worth |
| Reachable.OrphanMade | kernel/src/fs.c:660-1195 | A run of three calls on a formatted volume that leaves an orphan |
| Leaks.WriteUnowned | kernel/src/fs.c:786-857 | Exactly which taken regions a write leaves without an owner, and when there are none |
| Leaks.MkUnowned | kernel/src/fs.c:660-696 | A creation leaves a region without an owner exactly when the table is full |
| Leaks.RmUnowned | kernel/src/fs.c:1157-1170 | A removal leaves none that had one |
| Creation.MkFileResolves | kernel/src/fs.c:660-696 | A creation that reports success at an unresolved path makes it resolve, to the new id, if and only if there was a free slot and the path does not start at the new id itself (or is as long as a path can be); every path that resolved still does, to the same id |
| Creation.MkDirResolves | kernel/src/fs.c:736-765 | The same for directories |
| Creation.MkDirRmDir | kernel/src/fs.c:736-1187 | Creating and removing a directory restores the image, so its id is given out again |
| Creation.StaleDirectory | kernel/src/fs.c:570-696 | With such an id as current directory a relative creation appears at the root and is not found under its own path |
| Transfers.WriteThenRead | kernel/src/fs.c:786-940 | After a write call, a read of any limit gives the data up to the recorded size, which is all of it or whole regions |
| Transfers.WriteReadsBack | kernel/src/fs.c:813-940 | Everything recorded reads back if and only if the old chain was long enough or region 0 was taken |
| Transfers.Conservation | kernel/src/fs.c:660-1170 | Create, write once, remove restores bitmap, table and last id, from a fresh volume as from a used one, also when regions ran out |
| Transfers.CopySound | kernel/src/fs.c:1412-1449 | A successful copy keeps the source and the separation of files, and the destination records the source's size or whole regions; all of that reads back if and only if the destination is new, region 0 was taken, or the data fits the old regions |
| Transfers.SourceAvoids | kernel/src/fs.c:1412-1449 | A copy whose source path stops naming the source when the destination is created does not report success |
| Transfers.CopyOfNew | kernel/src/fs.c:1412-1449 | The case that leaves open: a relative source used from the id its new destination gets. The copy reports success if and only if the destination's path has 1021 characters or more behind its '/', and then the destination reads as zeros |
| Outcomes.MkDirOutcome | kernel/src/fs.c:736-765 | A directory is made if and only if its own directory resolves and an id is left; the new entry has the name, parent, next id and fields asked for; a failure changes nothing |
| Outcomes.MkFileOutcome | kernel/src/fs.c:660-696 | A file is made if and only if there is a free region as well, and takes the lowest |
| Outcomes.WriteOutcome | kernel/src/fs.c:859-975 | A write succeeds and a read finds something if and only if the path names a file; a failed write changes nothing |
| Outcomes.RmFileOutcome | kernel/src/fs.c:1157-1170 | A file removal succeeds exactly on files, answers 2 exactly on other entries and 1 exactly when there is none; it erases that entry only |
| Outcomes.RmDirOutcome | kernel/src/fs.c:1172-1187 | A directory removal succeeds exactly on directories without children, and answers 2 exactly on files |
| Outcomes.CopyOnto | kernel/src/fs.c:1412-1449 | The answers of a copy onto an existing entry: 2 for a source or destination that is no file, 3 for a source of more than 8192 bytes, else 0 |
| Outcomes.CopyNothing | kernel/src/fs.c:1412-1422 | A copy from a path that names nothing answers 1 and changes nothing |
| Outcomes.CopySame | kernel/src/fs.c:1412-1433 | A copy of a file onto itself answers 0 and changes nothing |
| Outcomes.CopyToNew | kernel/src/fs.c:1412-1449 | A copy to a path that names nothing succeeds if and only if a file can be made there, there is a slot for it, and the path then names it |
| Reachable.NestedMade | kernel/src/fs.c:736-765 | From an empty volume the directories of any path can be made from the top down, each call with success |
| Reachable.NestedFound | kernel/src/fs.c:369-447 | And each of them is then found by its path |
| Reachable.DotDotNamed | kernel/src/fs.c:736-765 | A directory made at "/x/.." is one: going up from it by its path comes to the root |
| RoundTrips.WriteReadCalls | kernel/src/fs.c:786-975 | After a write of a buffer and a size, 0 meaning a C string, a read gives the bytes meant, cut by the recorded size, the limit (1023 bytes when none is given) and what can be read |
| RoundTrips.StoreAndLoad | kernel/src/fs.c:859-975 | So do the two calls one after the other, on buffers |
| FileData.DataOf | kernel/src/fs.c:793-795 | Size 0 means the characters before the first NUL, any other size that many bytes |
| Calls.FsMkFile | kernel/src/fs.c:660-696 | The region taken, the new entry, the last id and the result code are those of the specification on values; every failure leaves the volume alone |
| Calls.FsMkDir | kernel/src/fs.c:736-765 | The new directory entry, last id and result code are those of the specification on values; bitmap and storage are untouched |
| Calls.FsWriteFile | kernel/src/fs.c:859-896 | Storage, bitmap and the entry's size become what the write on values gives for the file that the path names; otherwise nothing changes and 1 is returned |
| Calls.FsReadFile | kernel/src/fs.c:942-975 | The buffer, of any length that the file's bytes below the limit and a NUL fit, holds just those; the volume is unchanged |
| Calls.FsRmFileById | kernel/src/fs.c:1157-1170 | Entry, bits and last id after a removal by id, and its result codes: 1 for no such entry, 2 for a directory |
| Calls.FsRmDirById | kernel/src/fs.c:1172-1187 | A directory goes exactly when it exists, is one and has no children; the result code says which check failed |
| Calls.FsRmFile | kernel/src/fs.c:1189-1195 | Removing the file that a path names is the removal of its id; a path that names nothing changes nothing |
| Calls.FsRmDir | kernel/src/fs.c:1197-1207 | The same for directories |
| Calls.FsCopyFile | kernel/src/fs.c:1412-1449 | The copy through its 8193-byte buffer is the copy on values |
| Perform.FileSystemCall | kernel/src/fs.c:660-1449 | Every call of a file system run is the call of that name on the volume |
| Listing.FitIsLongest | kernel/src/fs.c:1134-1138 | The items listed are exactly the longest run that fits with its NUL |
| Listing.ListedChildren | kernel/src/fs.c:1084-1154 | Read line by line, a listing gives the live children in the order of their slots, with a '/' behind exactly the directories: all of them if and only if their text fits |
| Listing.ListingEnd | kernel/src/fs.c:1149-1153 | A listing ends in a newline exactly when children were left out |
| Listing.ListedDirIs | kernel/src/fs.c:1090-1112 | A listing succeeds exactly for the root and live directories |
| Listing.FsLsDir | kernel/src/fs.c:1084-1154 | The buffer gets the children that fit, in table order, and a NUL; nothing from the limit on is written |
| Superblock.FnvVectors | kernel/src/fs.c:1282-1289 | The checksum of nothing and of "a" are the published FNV-1a values |
| Superblock.BeginsWith | kernel/src/fs.c:1329-1345 | A superblock begins with its eight letters and version 1, and names 128 table sectors |
| Superblock.LoadAccepts | kernel/src/fs.c:1347-1385 | The loader accepts exactly the sectors whose first 64 bytes are those of a superblock with an allowed layout |
| Superblock.FnvDiffers | kernel/src/fs.c:1282-1289 | Byte strings that differ in one place have different checksums |
| Superblock.StepInjective | kernel/src/fs.c:1284-1287 | A checksum step is a bijection on states and injective in the byte |
| Superblock.LoadSuperblock | kernel/src/fs.c:1347-1385 | A written superblock loads as its layout exactly when the layout checks hold |
| Superblock.CorruptionRejected | kernel/src/fs.c:1347-1360 | Changing one byte below 64 makes the loader reject it; changing any other byte makes no difference |
| Superblock.SbChecksum | kernel/src/fs.c:1282-1289 | The loop computes the checksum of the first 56 bytes |
| Superblock.SbGet64 | kernel/src/fs.c:1274-1280 | The loop reads a little-endian field |
| Superblock.SbPut64 | kernel/src/fs.c:1268-1272 | The loop stores a little-endian field and no other byte |
| Mount.LayoutBounds | kernel/src/fs.c:1301-1306 | Storage starts on the disk from 132 sectors up; all storage the bitmap can name is on it exactly from 4227 up |
| Mount.FormattedLayout | kernel/src/fs.c:1301-1502 | On a disk without a superblock `fs_init` makes the bitmap the least number of sectors with one byte for every 64 of the disk; the result code says whether the parts before storage fit |
| Mount.FormattedSectors | kernel/src/fs.c:1387-1409 | What a format leaves on every sector, also on a disk that ends before storage |
| Mount.FormattedImage | kernel/src/fs.c:1387-1409 | A formatted disk has no bit set, no entry and last id 0 |
| Mount.FormatThenMount | kernel/src/fs.c:1461-1502 | The mount after a format finds the same layout exactly from 132 sectors up and changes no other sector than the last id's |
| Mount.MountAgain | kernel/src/fs.c:1488-1493 | Mounting is stable: same layout, nothing changed |
| Mount.MountIsRemount | kernel/src/fs.c:1461-1502 | On the sectors, `fs_init` of a volume that carries its superblock is the recomputation of the last id |
| Mount.MountAfterRun | kernel/src/fs.c:660-1502 | A mounted volume is found again after any run of calls: same layout, same image |
| Mount.FormatRunMount | kernel/src/fs.c:660-1502 | Format, any run of calls, then `fs_init`: the layout of the format and the image the run left |
| Mount.NoPointersMeans | kernel/src/fs.c:923-927 | Storage has no pointers when each region's is 0 or all ones |
| Mount.EmptySeparated | kernel/src/fs.c:1387-1409 | A freshly formatted volume satisfies the separation invariant if and only if no region's last sector has a pointer; no other byte of storage matters |
| Mount.Reformatted | kernel/src/fs.c:1387-1409 | Formatting over a used volume of the same size gives a volume on which every run keeps the invariant of the image |
| Mount.FormatThenRun | kernel/src/fs.c:660-1502 | From a format on, every state keeps the separation invariant if and only if storage had no pointers and the calls remove only one-region files |
| Mount.FormatThenPaths | kernel/src/fs.c:208-1502 | From a format on, after calls that keep the tree ordered, every live entry whose path fits is found by it |
| Mount.FsWriteRetry | kernel/src/fs.c:1308-1327 | Succeeds exactly on sectors of the disk; writes that sector only |
| Mount.FsWriteSuperblock | kernel/src/fs.c:1329-1345 | Writes exactly the superblock of the layout |
| Mount.FsLoadSuperblock | kernel/src/fs.c:1347-1385 | Accepts and decodes exactly what the function on values does |
| Mount.FsFormat | kernel/src/fs.c:1387-1409 | Every sector after a format, also after a failed one |
| Mount.FsInit | kernel/src/fs.c:1461-1502 | Loads or formats; layout, result code and every sector are given |
| FrameAllocator.UsableFrames | kernel/src/pmm.c:73-82 | On aligned ranges, the frames cleared are those that lie wholly in a usable range |
| FrameAllocator.TotalIsLeast | kernel/src/pmm.c:37-55 | The frame count is the least that all usable memory lies below |
| FrameAllocator.SizeIsLeast | kernel/src/pmm.c:56 | The bitmap has the least number of bytes with a bit for each frame |
| FrameAllocator.HomeIsFirst | kernel/src/pmm.c:58-67 | It lies in the first usable range that is long enough, and nowhere exactly when none is |
| FrameAllocator.RangeFrames | kernel/src/pmm.c:73-82 | Which frames a range gives, aligned or not |
| FrameAllocator.OwnFrames | kernel/src/pmm.c:84-86 | On an aligned range exactly the frames that the bitmap has a byte in are reserved for it |
| FrameAllocator.Pmm.Place | kernel/src/pmm.c:37-67 | Frame count, bitmap size and the first range that holds the bitmap |
| FrameAllocator.Pmm.Init | kernel/src/pmm.c:37-87 | A flag is clear exactly for usable frames that are not the bitmap's own; no byte outside the bitmap changes |
| FrameAllocator.InitPartition | kernel/src/pmm.c:69-86 | So after init all allocatable frames are free |
| FrameAllocator.TakeKeeps | kernel/src/pmm.c:89-97 | An allocation returns the lowest free frame, never 0 unless none is free, and moves it from free to outstanding |
| FrameAllocator.PokeKeeps | kernel/src/pmm.c:89-97 | A store into an allocated frame cannot change the bitmap |
| FrameAllocator.Run | kernel/src/pmm.c:89-101 | Over every run of allocations, frees and stores, free and outstanding frames partition the same set |
| FrameAllocator.Pmm.AllocFrame | kernel/src/pmm.c:89-97 | The scan gives exactly the memory and address of the function on values |
| FrameAllocator.Pmm.FreeFrame | kernel/src/pmm.c:99-101 | One flag is cleared, no other bit of memory changes |
| Perform.FrameAction | kernel/src/pmm.c:89-101 | Every action of an allocator run is the call of that name |
| Tasks.LoopEnds | kernel/src/pit.c:36-38 | The do-while loop ends exactly when some task is active |
| Tasks.ExitEnds | kernel/src/main.c:1187-1195 | A task that ends itself is not the one chosen next |
| Tasks.EndedForGood | kernel/src/pit.c:29-41 | Over every run an ended task stays ended and is never chosen |
| Tasks.TicksAreChoices | kernel/src/pit.c:29-41 | Once there is a task, the tick count grows by one with every choice and with nothing else |
| Tasks.CreatedTask | kernel/src/main.c:1207-1229 | A creation adds one active task with its run path cut to 1023 characters and leaves the others; with 16 tasks it does nothing |
| Tasks.StackTopIs | kernel/src/main.c:1145-1147 | A stack starts at the last multiple of 16 in the task's own 16 MiB |
| Tasks.Fair | kernel/src/pit.c:29-41 | A task that stays active is chosen at the latest by the 16th choice, whatever is created, ended or deleted meanwhile |
| Tasks.Resumes | kernel/src/pit.c:34-40 | After any run a task's saved stack pointer is the one it was last interrupted with, or created with |
| Tasks.ResumedRsp | kernel/src/pit.c:29-41 | The value returned is the saved stack pointer of the active task that is chosen |
| Tasks.DeleteEffect | kernel/src/main.c:1249-1286 | Exactly which deletions end a given task |
| Tasks.CreatedName | kernel/src/main.c:1197-1229 | The name a deletion sees of a created task, for every length of name and path |
| Tasks.Run | kernel/src/main.c:1187-1286 | Every run keeps the task table well formed and the current task in it |
| Perform.TaskEvent | kernel/src/main.c:1187-1286 | Every event of a task run is the call of that name |
| Scheduler.Kernel.Schedule | kernel/src/pit.c:29-41 | The loop saves and chooses as the function on values does, and terminates |
| Scheduler.Kernel.TaskExit | kernel/src/main.c:1187-1195 | The current task is ended and another chosen |
| Scheduler.Kernel.TaskCreate | kernel/src/main.c:1145-1178 | The 22 words of the first frame are at the top of the task's stack, and no other memory changes |
| Scheduler.FirstFrameStarts | kernel/src/main.c:1145-1178 | Popped as the end of the interrupt handler pops it, the first frame starts the task at its entry point, with an empty stack of its own and interrupts on |
| Scheduler.Kernel.CreatTaskPath | kernel/src/main.c:1207-1229 | Creates a task in the next slot, with a first frame for its entry point, or nothing when all are used |
| Scheduler.Kernel.CreatTaskFunc | kernel/src/main.c:1231-1247 | The same without a run path |
| Scheduler.Kernel.DeletTask | kernel/src/main.c:1249-1286 | The search with its two length loops deletes as the function on values does |
| KeyRing.RowsTyped | kernel/src/keyboard.c:6-12 | Which character every key gives |
| KeyRing.ClickKeeps | kernel/src/keyboard.c:18-40 | A character is dropped exactly when 255 wait; otherwise it waits last |
| KeyRing.SlotKept | kernel/src/keyboard.c:32-39 | No interrupt overwrites the slot being read |
| KeyRing.ReadKeeps | kernel/src/keyboard.c:42-51 | Every access of the reader keeps accepted = delivered + waiting |
| KeyRing.Run | kernel/src/keyboard.c:14-51 | So does every interleaving |
| KeyRing.NothingLost | kernel/src/keyboard.c:14-51 | While at most 255 characters wait or are typed, all of them arrive in order |
| KeyRing.ReadUnderGives | kernel/src/keyboard.c:42-51 | A read returns the character that was oldest at its start, whatever is typed meanwhile |
| KeyRing.Keyboard.ClickOnKeybord | kernel/src/keyboard.c:18-40 | The interrupt handler is the step on values |
| KeyRing.Keyboard.ReadKyboardFromMain | kernel/src/keyboard.c:42-51 | The reader with interrupts between its accesses succeeds exactly when a character was waiting |

## Left out

- The disk driver's port protocol and time-outs (`kernel/src/ata.c`): a sector access succeeds exactly when the
  disk has the sector. Disks have at most 2^28 sectors, the driver's range, so no sector number is truncated.
- `ata_identify` and its choice between two sector counts: the count is the number of sectors of the disk.
- Volumes of fewer than 4227 sectors: they are formatted and mounted in the model, but the file calls are
  specified only where every storage sector that the bitmap can name is on the disk.
- Bitmap.GetDataRegion: for sizes that do not divide 4096 the scan's answer depends on bytes behind its buffer; the
  public interface asks for 8 sectors only.
- FileData.WriteRegion: only region sizes that divide 4096, for the same reason. Chains on values are modelled for
  every region size whose multiples cover the bitmap.
- FileData.FsWriteFileInside: likewise only region sizes that divide 4096.
- `fs_mk_file_size`, `id_to_path_internal`, `write_uint64_to_last_8_bytes`, `path_to_parent_id`, the branch for a
  nonzero last data frame, and `fs_test_file`: not reached from the public interface, or no result.
- Names of more than 23 characters and paths that print to more than 1022 characters: the source's fixed
  buffers have no room for them.
- PathBuffers.PathResolve: a relative path of 1023 characters or more can resolve to one that its buffer has no room
  for; such paths are outside its contract.
- Null buffer arguments.
- Mount.FormatRunMount: storage whose old pointers name no region of the new volume is not covered, and not by
  `Mount.FormatThenRun`; a pointer that an earlier volume of the same size wrote always names one
  (`Mount.Reformatted`).
- Calls.FsCopyFile: needs room for both paths also once the destination exists, as the source's buffers do;
  `Calls.UsableAfter` shows that this asks something new only of a relative path from an id just given out.
- Mount.FsInit: does not cover a stored superblock with a right checksum and a bitmap size of 2^64-130 or more, which
  no format writes; its layout arithmetic would wrap round.
- Table.ReloadLastIdToDisk: the 504 bytes after the number are whatever the source's stack held, so they are
  left unspecified.
- FileSystem.MkFile: existing names and parents that are files are not refused, as in the source; unique names are
  a hypothesis where a theorem needs them, and `Order.StepOrdered` says which calls keep them.
- FrameAllocator.Pmm.FreeFrame: a frame number beyond the bitmap is outside its contract; the source checks nothing.
- FrameAllocator.Pmm.Init: needs a usable range that holds the bitmap, as the source does.
- Tasks.Start: creating a task is one atomic event. In the source a timer tick can come between the choice of the slot
  and `task_count++` (`kernel/src/main.c:1207-1247`), and another task that creates one then gets the same slot.
- Concurrent file-system calls and several readers of the key ring: the source's static buffers serve one caller.
- The interrupt entry code in assembly that saves and restores registers, the timer set-up and the sleep calls.
- Rendering, the shell, decimal conversion, `simple_rand` and debug output.
