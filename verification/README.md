# Liigboot: models of the Syslinux core it carries

Liigboot ships a trimmed Syslinux 4.07 core: a boot loader with its own heap, its own file
system drivers, its own disk access and its own small library, and a Python tool that
writes FAT images for it.  This project models the parts with the most state and proves
what callers rely on.

* **Heap** (`WordRings`, `ArenaModel`, `ArenaMemory`, `ArenaRuns`, `Arena`, `HeapRuns`): the
  allocator as pointer surgery in one array of words.  Two intrusive rings run through the
  block headers; every method is tied to a value-level heap, whole-run properties are proved
  of that, and of the memory that what callers store stays until they free it.
* **Reading files** (`FileData`, `ReadRun`, `Getfssec`, `Fat`, `FatSectors`, `BlockTree`,
  `ExtentTree`, `Ext2`): the generic reader with lookahead and coalescing, on top of the
  FAT chain cursor, the ext2 block tree, the ext4 extent tree, or any driver at all.  The
  allocation table, the tables of block numbers and the extent nodes are bytes on the disk
  that these drivers read through the block cache.
* **Block cache** (`LruModel`, `Cache`): descriptors on a doubly linked chain against a
  value-level least-recently-used list.
* **Paths** (`PathNames`, `PathModel`, `RefGraph`, `Vfs`): reference-counted inode chains,
  symlinks, the table of open files, `realpath` and `chdir`, against the meaning of a path
  as a list of components.
* **Disk and memory** (`DiskIo`, `Bcopy`, `Adv`, `AdvModel`): chunked and retried BIOS
  reads, the overlap-safe block move, the two-copy auxiliary data vector.
* **Formats and sums** (`Rllpack`, `FatTable`, `FatImage`, `Btrfs`, `Printf`, `Vsnprintf`,
  `Formats`, `Checksums`): the run-length packer, the FAT image writer against the boot
  loader's reader, btrfs searches, bounded formatted output, checksum shortcuts.

`Options`, `Shift` and `LittleEndian` hold an option type, facts about division, and numbers
as bytes.

Conventions: code that changes state is modelled by classes and methods whose `ensures`
state the new state through functions of the old one; what the code is for is then proved
about those functions.  Integers are unbounded, and 32-bit or 64-bit wrap-around is written
out where the code has it.  Memory that is running out, BIOS calls that fail, a power loss
and what happens to lie on the stack are parameters that range over everything.

Some properties turned out not to hold everywhere.  In each case the code is kept as it
is, an input is given, and the exact condition is proved:

* `malloc` rounds a request in 32 bits; it makes room exactly up to 2^32 - 32 bytes
  (`ArenaRuns.RoundedFits`).
* `generic_getfssec` rounds the bytes left up in 32 bits, so of a file that has more than
  2^32 minus one sector left nothing is read (`Getfssec.DemandExact`,
  `Getfssec.LargestFileUnread`).
* `fat_next_extent` rounds a size up to clusters in 32 bits, so of a FAT file of more than
  2^32 minus one cluster nothing is read either (`Getfssec.FatReadableToEnd`,
  `Getfssec.LargeFatUnread`).
* ext4 files with a hole between extents can be read only up to the hole
  (`Ext2.SparseFileStops`, `Getfssec.ReadableToEnd`).
* `bmap_indirect` reports a missing subtree's full size, too much exactly if it is entered
  in its middle (`BlockTree.OvershootExact`).
* A broken FAT chain leaves the file's size in sectors instead of bytes
  (`Fat.FatNextExtent`, `Fat.BrokenChainSize`), and the sector walk does not stay at the end
  (`FatSectors.WalkExact`).
* The CHS path looks at the start of the buffer instead of the place it has come to, so a
  long read goes astray at one megabyte (`DiskIo.StrayExact`, `DiskIo.LongReadStrays`);
  what arrives before that is counted exactly for every buffer (`DiskIo.Disk.ChsRead`,
  `DiskIo.CleanExact`, `DiskIo.UnalignedEscapes`).
* The EDD path, when it gives up, starts its CHS fallback at the front of the buffer; that is
  right exactly if nothing had arrived before (`DiskIo.FallbackExact`,
  `DiskIo.FallbackWrong`).
* The cache counts its entries in 16 bits; it uses the area it has exactly below 65536
  entries (`Cache.EntriesExact`).
* Digits behind an asterisk make a negative precision run away (`Vsnprintf.PrecisionExact`,
  `Vsnprintf.RunawayPrecision`).
* A power loss while the data vector is written is harmless exactly if the second copy
  alone already yields the old or the new vector (`AdvModel.PowerLossExact`,
  `AdvModel.SecondCrashLoses`).  The second copy is written even if the first could not be,
  so two failures lose both (`AdvModel.FailuresExact`, `AdvModel.TwoFailuresLose`).
* `chdir` leaves its buffer exactly for paths of 256 characters or more
  (`Vfs.InsideExact`, `Vfs.NestedTooLong`).
* The end mark written by the image tool is recognised by the loader exactly if it is no
  cluster number (`FatImage.EndRecognised`).

## Model

| member | source | states |
|---|---|---|
| `Arena.Arena.MemInit` | syslinux/libcore/mem/init.c:11-38 | starts both heaps, each with its region as one free block, in memory that satisfies the heap invariant |
| `Arena.Arena.Malloc` | syslinux/libcore/mem/malloc.c:57-84 | keeps both heaps valid, answers as first fit says, and changes no word of any live payload |
| `Arena.Arena.SplitBlock` | syslinux/libcore/mem/malloc.c:25-46 | the stores that split a block represent the heap with the block cut in two and the rest in its place on the free ring |
| `Arena.Arena.ClaimBlock` | syslinux/libcore/mem/malloc.c:47-52 | the stores that hand out a whole block represent the heap with it off the free ring |
| `Arena.Arena.Free` | syslinux/libcore/mem/free.c:66-85 | releases exactly the block a live pointer belongs to, in its own heap; null does nothing; no live payload changes |
| `Arena.Arena.FreeBlock` | syslinux/libcore/mem/free.c:11-62 | freeing merges with both neighbours where they are free, keeps the invariant, writes only headers and free memory |
| `Arena.Arena.FreeTagged` | syslinux/libcore/mem/free.c:131-145 | walks both heaps and releases every block with the tag, while blocks merge under the walk |
| `Arena.Arena.InjectFreeBlock` | syslinux/libcore/mem/free.c:92-126 | links a new region in address order and frees it, or rejects it when it overlaps |
| `Arena.PayloadsSpared` | syslinux/libcore/mem/free.c:11-62 | no byte of a live payload is among those a release or an allocation may write |
| `Arena.HeapsKept` | syslinux/libcore/mem/free.c:11-147 | a step that writes only where it may in one heap leaves both heaps valid and apart |
| `ArenaModel.ReleaseCorrect` | syslinux/libcore/mem/free.c:11-62 | releasing frees exactly that block, keeps the managed bytes, and leaves no two touching free blocks |
| `ArenaModel.AllocateCorrect` | syslinux/libcore/mem/malloc.c:13-55 | allocating adds exactly one live block of less than two units more than the size, keeps the managed bytes and every other live block, and leaves every other free byte free |
| `ArenaRuns.RoundedFits` | syslinux/libcore/mem/malloc.c:65-72 | the rounded size holds header and payload if and only if the request is at most 2^32 - 32 |
| `ArenaRuns.MallocFailsOnlyWhenFull` | syslinux/libcore/mem/malloc.c:57-84 | a nonzero request fails if and only if no stretch of free bytes is long enough, and then changes nothing |
| `ArenaRuns.MallocSound` | syslinux/libcore/mem/malloc.c:57-84 | a pointer returned is the payload of a new live block with the tag, room for the request and less than 64 bytes more; every free byte outside it stays free |
| `ArenaRuns.FreeUndoesMalloc` | syslinux/libcore/mem/free.c:66-85 | freeing what was just allocated restores every block |
| `ArenaRuns.FreeTaggedCorrect` | syslinux/libcore/mem/free.c:131-145 | frees the live blocks with the tag and no others |
| `ArenaRuns.InjectCorrect` | syslinux/libcore/mem/free.c:92-126 | the managed bytes grow by exactly the region, live blocks stay; an overlapping region changes nothing |
| `ArenaRuns.BlocksDetermined` | syslinux/libcore/mem/free.c:11-62 | the blocks of a heap are a function of its managed bytes and its live allocations: it is always fully merged |
| `ArenaRuns.RunSound` | syslinux/libcore/mem/malloc.c:57-84 | every run of malloc, free and free-by-tag keeps the heap sound and the managed bytes the same |
| `ArenaRuns.LiveApart` | syslinux/libcore/mem/malloc.c:57-84 | after any run two live allocations share no byte |
| `ArenaRuns.RunsMeet` | syslinux/libcore/mem/free.c:66-85 | two runs that leave the same allocations live leave the same blocks, whatever their order |
| `ArenaRuns.AllFreedRestores` | syslinux/libcore/mem/free.c:66-85 | once everything is freed the heap is back to the free blocks it started with |
| `HeapRuns.Run` | syslinux/libcore/mem/malloc.c:57-84 | any legal run of allocating, freeing, freeing by tag, injecting and storing keeps both heaps valid in memory, and every block not freed in it holds the words last stored |
| `HeapRuns.AllocateThen` | syslinux/libcore/mem/malloc.c:57-84 | an allocation holds what was stored in it last until it is freed by pointer or tag, whatever else is asked of the heaps |
| `HeapRuns.StaysLive` | syslinux/libcore/mem/free.c:11-145 | no call takes a live block from its owner but one that names it or its tag |
| `HeapRuns.StoreKeeps` | syslinux/libcore/mem/malloc.c:13-55 | no store in a payload disturbs either heap |
| `Getfssec.Inode.GetNextExtent` | syslinux/libcore/fs/getfssec.c:74-86 | the lookahead extent begins where the current one ends, agrees with the file's map, and is empty only beyond what the driver is sure of |
| `Getfssec.Inode.LookAhead` | syslinux/libcore/fs/getfssec.c:138-159 | the current extent covers the request, or what follows it in the file does not go on from it on the disk; gives up only where the driver may fail |
| `Getfssec.Inode.ReadLoop` | syslinux/libcore/fs/getfssec.c:106-185 | puts the data of the sectors it has done at the front of the buffer and nothing anywhere else; does all of them or stops where the driver may fail |
| `Getfssec.File.GenericGetfssec` | syslinux/libcore/fs/getfssec.c:88-194 | for every driver and size: returns the minimum of whole sectors done and bytes left, advances the offset by it, lands exactly where it should, and leaves `have_more` alone on an empty read; tables and nodes are read through the cache on the way |
| `Getfssec.File.ReadPiece` | syslinux/libcore/fs/getfssec.c:88-194 | one read yields the file's bytes from the old offset to the new one |
| `Getfssec.File.ReadInPieces` | syslinux/libcore/fs/getfssec.c:88-194 | any list of requests yields pieces that make up the file's content, and gets to min(size, end of what is readable, start + requested bytes) |
| `Getfssec.DemandExact` | syslinux/libcore/fs/getfssec.c:95-104 | requests are cut to the sectors left for all request sizes if and only if the bytes left are at most 2^32 minus a sector; otherwise to none |
| `Getfssec.LargestFileUnread` | syslinux/libcore/fs/getfssec.c:95-104 | of 2^32 - 1 bytes left, in 512-byte sectors, every request reads nothing |
| `Getfssec.LandsExactly` | syslinux/libcore/fs/getfssec.c:187-191 | the new offset is min(size, end of what is readable, offset + requested bytes) |
| `Getfssec.ReadableToEnd` | syslinux/libcore/fs/ext2/bmap.c:45-80 | an ext2-family file can be read to its end if and only if it has no hole between or behind extents |
| `Getfssec.StuckAtHole` | syslinux/libcore/fs/getfssec.c:144-150 | at such a hole every further read returns nothing |
| `Getfssec.FatReadableToEnd` | syslinux/libcore/fs/fat/fat.c:99-101 | a FAT file can be read to its end if and only if it is empty or its size is at most 2^32 minus a cluster |
| `Getfssec.LargeFatUnread` | syslinux/libcore/fs/fat/fat.c:99-101 | of a sound file of 2^32 - 2048 bytes in clusters of 4096, every request reads nothing, though the reader rounds the size correctly |
| `FileData.AgreesJoin` | syslinux/libcore/fs/getfssec.c:151-154 | two sound extents that meet in the file and on the disk are one sound extent |
| `Fat.Resume` | syslinux/libcore/fs/fat/fat.c:103-109 | the walk starts at the cluster of the chain that the cursor names, or at the first if that is behind the wanted one |
| `Fat.SeekCluster` | syslinux/libcore/fs/fat/fat.c:111-122 | follows the table on the disk to the wanted cluster, or stops at the first invalid one from where it began |
| `Fat.CountRun` | syslinux/libcore/fs/fat/fat.c:124-134 | counts the clusters that the table puts one behind the other, up to the first that does not |
| `Fat.FatNextExtent` | syslinux/libcore/fs/fat/fat.c:86-144 | fails if and only if the walk from where the cursor stands meets an invalid cluster, and leaves the number of the first such cluster, in sectors, as size; else the longest contiguous run from the wanted cluster, with the cursor invariant kept on a sound chain |
| `Fat.RunAgrees` | syslinux/libcore/fs/fat/fat.c:124-134 | that run agrees sector by sector with the chain from its start |
| `Fat.ClusterPlaces` | syslinux/libcore/fs/fat/fat.c:124-125 | cluster 2 lies at the start of the data area and each cluster begins where the one before it ends |
| `Fat.MarksInvalid` | syslinux/libcore/fs/fat/fat.c:757-766 | on a volume of each type free, reserved and bad entries and all end marks are no cluster numbers |
| `Fat.ClusterCountExact` | syslinux/libcore/fs/fat/fat.c:99-99 | the cluster count is right if and only if the size is at most 2^32 minus a cluster |
| `Fat.BrokenChainSize` | syslinux/libcore/fs/fat/fat.c:112-115 | the size stored at the first invalid cluster is the bytes before it if and only if the file breaks at its very start |
| `FatSectors.GetTheRightSector` | syslinux/libcore/fs/fat/fat.c:183-208 | the sector is where that many steps from the first lead, whether the cursor is used or not |
| `FatSectors.NextSectorOf` | syslinux/libcore/fs/fat/fat.c:213-221 | one step further, with the cursor invariant kept |
| `FatSectors.WalkInChain` | syslinux/libcore/fs/fat/fat.c:146-176 | inside the chain, sector by sector leads where cluster by cluster leads |
| `FatSectors.RootDirectory` | syslinux/libcore/fs/fat/fat.c:154-160 | the fixed root directory is read in order and then ends |
| `FatSectors.WalkExact` | syslinux/libcore/fs/fat/fat.c:146-208 | the sector at a position is right if and only if it lies not behind the end, or goes round to 0 there by chance |
| `BlockTree.ScanSetNblocks` | syslinux/libcore/fs/ext2/bmap.c:86-110 | the number at an index and the longest run it begins in its table |
| `BlockTree.BmapIndirect` | syslinux/libcore/fs/ext2/bmap.c:116-137 | the loop over levels, reading tables through the cache, finds what the recursive walk over the tables on the disk finds, and its count |
| `BlockTree.WordsRead` | syslinux/libcore/fs/ext2/bmap.c:129-131 | a table of 32-bit numbers written low byte first is the one that is read |
| `BlockTree.LookFlattened` | syslinux/libcore/fs/ext2/bmap.c:116-137 | looking a block up is reading the flattened tree |
| `BlockTree.ReportedSound` | syslinux/libcore/fs/ext2/bmap.c:86-137 | the count is a sound run for leaf hits and for holes entered at the missing subtree's first block |
| `BlockTree.EntryNext` | syslinux/libcore/fs/ext2/bmap.c:116-137 | going from count to count never leaves the entries where the count is sound |
| `BlockTree.OvershootExact` | syslinux/libcore/fs/ext2/bmap.c:126-129 | the count stays inside the missing subtree if and only if the walk enters it at its first block |
| `ExtentTree.Ext4FindLeaf` | syslinux/libcore/fs/ext2/bmap.c:15-41 | the loop of scans, reading nodes through the cache, descends as the recursive definition does, damaged headers included |
| `ExtentTree.ReadHeader` | syslinux/libcore/fs/ext2/bmap.c:37-39 | whatever the cache holds and whatever fields a node was written with, the header read from its block tells them |
| `ExtentTree.WrittenRead` | syslinux/libcore/fs/ext2/ext2_fs.h:233-261 | a node written field by field in the order of the structs, of any depth and with any entries in range, is parsed back |
| `ExtentTree.WrittenLeaf` | syslinux/libcore/fs/ext2/bmap.c:57-75 | in a leaf as written every covered block is found in its extent |
| `ExtentTree.BmapWritten` | syslinux/libcore/fs/ext2/bmap.c:45-80 | for extents written into the inode, or into a block one level down, the answer is the extent's start plus the offset, and the blocks left in it |
| `ExtentTree.BmapExtent` | syslinux/libcore/fs/ext2/bmap.c:45-80 | the physical block and the blocks left in its extent, or 0 with the count untouched |
| `ExtentTree.FindCorrect` | syslinux/libcore/fs/ext2/bmap.c:15-80 | in a sound tree of any depth an extent is found if and only if it is in the flattened tree and covers the block |
| `Ext2.BmapTraditional` | syslinux/libcore/fs/ext2/bmap.c:143-179 | direct blocks and three trees: block and count as the file's map says, 0 beyond it |
| `Ext2.LookFileFlattened` | syslinux/libcore/fs/ext2/bmap.c:143-179 | the lookup is reading the flattened file |
| `Ext2.RunFile` | syslinux/libcore/fs/ext2/bmap.c:143-179 | asked at an entry, the count is a sound run that ends at an entry or at the end |
| `Ext2.Ext2Bmap` | syslinux/libcore/fs/ext2/bmap.c:194-204 | block and count for either kind of file |
| `Ext2.AnswerSound` | syslinux/libcore/fs/ext2/bmap.c:210-228 | asked where the reader asks, the extent agrees with the file's map, is empty only where a hole between extents begins, and ends where the reader may ask again |
| `Ext2.Ext2NextExtent` | syslinux/libcore/fs/ext2/bmap.c:210-228 | returns that answer, with the whole count of blocks; in a hole between extents the zero place and a length of minus the offset in the block |
| `Ext2.ReachesExact` | syslinux/libcore/fs/ext2/bmap.c:43-80 | what can be read reaches a sector if and only if no block below it lacks an extent |
| `Ext2.SparseFileStops` | syslinux/libcore/fs/ext2/bmap.c:43-80 | a file with extents for blocks 0 and 2 can be read up to block 1 |
| `Cache.Device.CacheInit` | syslinux/libcore/fs/cache.c:19-58 | all entries empty and unlocked, chained in order; their number is cut to 16 bits and they fit the area |
| `Cache.EntriesExact` | syslinux/libcore/fs/cache.c:33-36 | as many entries as have room if and only if fewer than 65536 have; none if and only if a multiple of 65536 have |
| `Cache.Device.GetCacheBlock` | syslinux/libcore/fs/cache.c:76-106 | the entry that holds the block or the least recently used one, moved to the recent end; no entry's block changes |
| `Cache.Device.GetCache` | syslinux/libcore/fs/cache.c:114-125 | returns what the disk holds and makes one step of the least-recently-used list; no block is held twice |
| `Cache.Device.CacheLockBlock` | syslinux/libcore/fs/cache.c:63-69 | the entry leaves the chain and keeps its block; the order of the others stays |
| `Cache.ServedTouch` | syslinux/libcore/fs/cache.c:76-125 | taking an entry and giving it the block is one step of the least-recently-used list |
| `LruModel.Residency` | syslinux/libcore/fs/cache.c:76-125 | behind the last request for a block stand exactly the different blocks requested since |
| `LruModel.ResidentUntilOthers` | syslinux/libcore/fs/cache.c:76-125 | after any history a block stays if and only if fewer other blocks were requested than there are unlocked entries |
| `LruModel.ResidencyWithLocks` | syslinux/libcore/fs/cache.c:63-125 | with entries being locked in between, it stays if and only if that was so at every moment |
| `RefGraph.GetSound` | syslinux/libcore/include/fs.h:155-159 | one holder more and one count more keep the counts right |
| `RefGraph.AttachSound` | syslinux/libcore/fs/fs.c:315-316 | a new child takes over a reference to its parent |
| `RefGraph.PutSound` | syslinux/libcore/fs/fs.c:35-44 | dropping a reference, and with it objects whose count reaches zero, keeps the counts right for one holder less |
| `RefGraph.LiveIsHeld` | syslinux/libcore/fs/fs.c:35-44 | no leaks: everything live lies on the way up from some holder |
| `RefGraph.HoldersDetermine` | syslinux/libcore/fs/fs.c:35-44 | the holders determine which inodes are live and all their counts |
| `PathNames.NextName` | syslinux/libcore/fs/fs.c:244-265 | cuts off the first component and skips slashes |
| `PathNames.ScannerComps` | syslinux/libcore/fs/fs.c:244-265 | the components of a path are the one cut off and those of the rest |
| `PathNames.SpliceComps` | syslinux/libcore/fs/fs.c:348-352 | a spliced path has the components of the target and then those of the rest |
| `PathModel.ResolveMeans` | syslinux/libcore/fs/fs.c:244-381 | whatever the string-level lookup finds is what the components mean, with `.`, `..`, slashes, absolute restarts and symlinks |
| `PathModel.ResolveName` | syslinux/libcore/fs/fs.c:298-380 | a name is looked up in the directory reached so far; a symlink is spliced in front of the rest; nothing but a directory has a rest |
| `PathModel.PathThen` | syslinux/libcore/fs/fs.c:244-281 | a path behind the absolute path of a directory means what it means when asked from there |
| `PathModel.DotsFound` | syslinux/libcore/fs/fs.c:278-296 | two dots lead to the directory in which a directory lies, one dot to itself, by relative and by absolute path |
| `PathModel.DotsAtRoot` | syslinux/libcore/fs/fs.c:278-296 | at the root both stay there |
| `PathModel.ParentCancels` | syslinux/libcore/fs/fs.c:278-317 | going into a directory and out again changes nothing |
| `PathModel.SymlinkFound` | syslinux/libcore/fs/fs.c:319-372 | a symlink means its target asked from the directory it lies in, if the budget and the buffer allow it |
| `PathModel.SpliceFits` | syslinux/libcore/fs/fs.c:323-331 | the buffer has room for exactly the spliced path and a final zero |
| `PathModel.NineteenSymlinks` | syslinux/libcore/fs/fs.c:333-337 | a path may lead over 19 symlinks and no more |
| `PathModel.WalkFound` | syslinux/libcore/fs/fs.c:324-336 | with enough room for spliced paths a path that means something is found |
| `PathModel.ResolveLinked` | syslinux/libcore/fs/fs.c:244-381 | what is found is linked from the root without symlinks, dots or slashes |
| `PathModel.PathFound` | syslinux/libcore/fs/chdir.c:36-55 | the absolute path of a chain leads to that chain from any directory |
| `PathModel.RealpathStable` | syslinux/libcore/fs/chdir.c:57-84 | the real path of a real path is the same, asked from anywhere |
| `Vfs.FileSystem.GetInode` | syslinux/libcore/include/fs.h:155-159 | takes a reference, with all counts right |
| `Vfs.FileSystem.PutInode` | syslinux/libcore/fs/fs.c:35-44 | the loop up the parents frees exactly what the graph says, with all counts right |
| `Vfs.FileSystem.Child` | syslinux/libcore/fs/fs.c:298-317 | a found entry becomes a held child with its parent's reference; its name may be missing for want of memory |
| `Vfs.FileSystem.Follow` | syslinux/libcore/fs/fs.c:319-372 | a symlink is replaced by its target in front of the rest, or the whole chain is released |
| `Vfs.FileSystem.WalkPath` | syslinux/libcore/fs/fs.c:231-383 | the walk terminates for every graph and holds exactly the inode the path resolves to, or nothing |
| `Vfs.FileSystem.AllocFile` | syslinux/libcore/fs/fs.c:49-61 | a free table entry if there is one |
| `Vfs.FileSystem.Searchdir` | syslinux/libcore/fs/fs.c:203-399 | success opens what the path resolves to; every failure leaves inodes, counts and table as they were |
| `Vfs.FileSystem.CloseFile` | syslinux/libcore/fs/fs.c:71-76 | empties the entry and drops its reference |
| `Vfs.FileSystem.InodeToPath` | syslinux/libcore/fs/chdir.c:36-55 | the length of the absolute path, of which as much as fits is in the buffer; -1 only if a name is missing |
| `Vfs.FileSystem.Realpath` | syslinux/libcore/fs/chdir.c:57-84 | the absolute path of what the path resolves to; inodes, counts and table are as before |
| `Vfs.FileSystem.RecordName` | syslinux/libcore/fs/chdir.c:114-125 | which accesses leave the buffer, and the name recorded if the path is short enough |
| `Vfs.FileSystem.Chdir` | syslinux/libcore/fs/chdir.c:86-131 | the working directory becomes the directory the path resolves to, or nothing changes, unless the buffer is left; after `..` its path has lost the last component |
| `Vfs.InsideExact` | syslinux/libcore/fs/chdir.c:114-125 | every access is inside, whatever is on the stack, if and only if the path has fewer than 256 characters |
| `Vfs.NestedTooLong` | syslinux/libcore/fs/chdir.c:114-125 | changing into nested directories one by one gets to a path that leaves the buffer |
| `Vfs.CopyString` | syslinux/libcore/fs/chdir.c:20-34 | appends what fits, returns the full length, terminates if there is room |
| `Rllpack.RllPack` | syslinux/libcore/rllpack.c:34-78 | writes the packed form downward from the start and nothing elsewhere |
| `Rllpack.RllUnpack` | syslinux/libcore/rllpack.c:80-105 | yields the decoded bytes and stops where the decoder stops |
| `Rllpack.RoundTrip` | syslinux/libcore/rllpack.c:34-105 | for every byte string, with anything behind it, unpacking returns the string and uses exactly the packed length |
| `Rllpack.DecodeFormat` | syslinux/libcore/rllpack.c:20-28 | each leading byte means what the format says: bytes as they are, a short run, a long run, the end |
| `Rllpack.RunPacked` | syslinux/libcore/rllpack.c:43-73 | a run of 3 to 8191 equal bytes is packed into 3 or 4 bytes |
| `Rllpack.ChooseExpands` | syslinux/libcore/rllpack.c:43-73 | the chosen records expand to the input |
| `Rllpack.PackedSize` | syslinux/libcore/rllpack.c:34-78 | n bytes take at most n + ceil(n / 128) + 1 |
| `Rllpack.StackRoundTrip` | syslinux/libcore/rllpack.c:34-105 | records packed one after another unpack in the same order |
| `DiskIo.Disk.PickTarget` | syslinux/libcore/fs/diskio.c:167-183 | the transfer stays inside one 64K line and inside its limits |
| `DiskIo.Disk.EddRetry` | syslinux/libcore/fs/diskio.c:187-253 | keeps what was read; the first call that works decides the size, and it gives up only after seven failed calls of every size down to 1 |
| `DiskIo.Disk.EddRead` | syslinux/libcore/fs/diskio.c:167-264 | for every pattern of failures the sectors counted are in the buffer and nothing else is touched; all of them unless it would fall back |
| `DiskIo.Disk.EddRdwr` | syslinux/libcore/fs/diskio.c:143-264 | with the fallback: what it reads lies at the front of the buffer, whatever arrived before |
| `DiskIo.FallbackExact` | syslinux/libcore/fs/diskio.c:238-239 | that is where it belongs, for every disk, if and only if nothing had arrived before |
| `DiskIo.FallbackWrong` | syslinux/libcore/fs/diskio.c:238-239 | of two sectors the second then stands where the first belongs |
| `DiskIo.ChsRoundTrip` | syslinux/libcore/fs/diskio.c:60-88 | cylinder, head and sector in the registers denote the sector, inside one track |
| `DiskIo.Disk.ChsRetry` | syslinux/libcore/fs/diskio.c:80-117 | the same for the CHS calls; beyond cylinder 1023 there is no call |
| `DiskIo.Disk.ChsRead` | syslinux/libcore/fs/diskio.c:18-134 | for every buffer: the sectors counted are in it up to the first call that would go astray, and with working calls they are exactly those that `Clean` counts |
| `DiskIo.CleanExact` | syslinux/libcore/fs/diskio.c:42-134 | for buffers aligned to sectors, or one sector per call, the read stops short if and only if some sector of the buffer can go astray |
| `DiskIo.UnalignedEscapes` | syslinux/libcore/fs/diskio.c:42-134 | an unaligned buffer of which a sector could go astray and none does |
| `DiskIo.FarExact` | syslinux/libcomcore/include/com32.h:130-147 | segment and offset name the pointer if and only if it is below one megabyte |
| `DiskIo.StrayExact` | syslinux/libcore/fs/diskio.c:47-56 | a transfer can go astray if and only if the buffer starts at or below 0xf0000 and its last sector begins at or above one megabyte |
| `DiskIo.LongReadStrays` | syslinux/libcore/fs/diskio.c:47-56 | 0x800 sectors to 0x10000 do: the one for 0x100000 goes to address 0 |
| `Bcopy.Cpu.PmBcopy` | syslinux/core/bcopyxx.inc:46-183 | for every source, target and length: as if all bytes were read before any is written, zeros for source -1 |
| `Bcopy.Cpu.Forward` | syslinux/core/bcopyxx.inc:57-94 | the same upwards, through bytes, words and dwords |
| `Bcopy.Cpu.Reverse` | syslinux/core/bcopyxx.inc:96-147 | the same downwards, for a target overlapping the source from above |
| `Bcopy.Cpu.Zero` | syslinux/core/bcopyxx.inc:149-183 | the same for zeros |
| `Bcopy.Cpu.PmShuffle` | syslinux/core/bcopyxx.inc:232-240 | the loop carries out the listed moves one after the other and returns the final entry |
| `Adv.Store.AdvGet` | syslinux/core/adv.inc:152-178 | length and place of the first string with the tag, 0 if there is none |
| `Adv.Store.AdvSet` | syslinux/core/adv.inc:191-260 | the area holds the chain with the entry set and zeros behind it; carry exactly on overflow |
| `Adv.Store.DropTag` | syslinux/core/adv.inc:196-229 | takes out every entry with the tag, and no other |
| `AdvModel.SetFind` | syslinux/core/adv.inc:152-260 | set then get is a finite map; other tags stay; on overflow the tag is absent |
| `AdvModel.StoredExact` | syslinux/core/adv.inc:234-245 | a string is stored if and only if the new chain and the zero behind it fit 500 bytes |
| `Adv.Store.CheckAdv` | syslinux/core/adv.inc:122-139 | accepts exactly the usable vectors |
| `Adv.Store.AdvVerify` | syslinux/core/adv.inc:85-117 | the first usable copy, or a blank one |
| `AdvModel.BlankBytes` | syslinux/core/adv.inc:96-107 | the bytes of a blank vector |
| `Adv.Store.AdvCleanup` | syslinux/core/adv.inc:266-283 | makes the vector usable without touching its data, and copies it |
| `Adv.Store.OneSector` | syslinux/core/adv.inc:354-387 | what up to six calls leave in a sector, for every outcome of each |
| `Adv.Store.AdvWrite` | syslinux/core/adv.inc:293-352 | what both sectors hold after a write, for every outcome of every call |
| `Adv.Store.AdvRead` | syslinux/core/adv.inc:322-328 | always a usable vector; the recovered one when the calls work |
| `Adv.Store.WriteAndStartAgain` | syslinux/core/adv.inc:293-352 | written, restarted and read, the old or the new vector is there exactly under the condition of WriteExact, and power losses do no harm under that of PowerLossExact |
| `AdvModel.WriteExact` | syslinux/core/adv.inc:336-352 | for every course of the calls: the old or the new vector comes back if and only if a copy was written, the usable first was not touched, or what is left without it is one of the two |
| `AdvModel.PowerLossExact` | syslinux/core/adv.inc:293-352 | power losses at any call are harmless for exactly those sectors whose second copy alone yields the old or the new vector |
| `AdvModel.FailuresExact` | syslinux/core/adv.inc:293-387 | failing calls and power losses are harmless exactly if also the blank vector is the old or the new one |
| `AdvModel.OneCopyEnough` | syslinux/core/adv.inc:336-352 | whatever failing calls leave, as long as the sum detects it, one written copy is enough |
| `AdvModel.EqualCopiesSafe` | syslinux/core/adv.inc:336-352 | two equal copies survive a power loss at any moment of the next write |
| `AdvModel.CrashKeepsEntries` | syslinux/core/adv.inc:191-352 | then a change of an entry is made whole or not at all |
| `AdvModel.TwoFailuresLose` | syslinux/core/adv.inc:340-352 | when every call fails and tears its sector, both copies are lost |
| `AdvModel.SecondCrashLoses` | syslinux/core/adv.inc:340-352 | after a power loss between the writes another one can bring back the older vector |
| `FatTable.Table.GetNextCluster` | syslinux/libcore/fs/fat/fat.c:31-84 | whatever the cache holds, the entry of the table on the disk as a number of half bytes, for FAT12, 16 and 32, also where it straddles two sectors |
| `FatTable.Written12` | syslinux/libcore/fs/fat/fat.c:42-67 | two FAT12 entries written as one number of three bytes are read back |
| `FatTable.Written16` | syslinux/libcore/fs/fat/fat.c:69-75 | so is a FAT16 entry of two bytes |
| `FatTable.Written32` | syslinux/libcore/fs/fat/fat.c:77-84 | and of four bytes of FAT32 the lower 28 bits |
| `FatImage.Image.FatGet` | mkzip.py:179-221 | the same entry, or an error outside the cluster range |
| `FatImage.Image.FatSet` | mkzip.py:197-232 | sets the entry and no half byte of any other; an error changes nothing |
| `FatImage.OthersKept` | mkzip.py:197-232 | every other entry reads as before |
| `FatImage.Image.ChainFile` | mkzip.py:236-247 | succeeds if and only if the last clusters are free, chains them, and leaves the rest |
| `FatImage.ReaderWalks` | mkzip.py:236-247 | the boot loader follows exactly these clusters and then reads an end mark |
| `FatImage.EndRecognised` | syslinux/libcore/fs/fat/fat.c:111-115 | the loader takes the mark for an end if and only if it is no cluster number |
| `FatImage.MountedEnds` | syslinux/libcore/fs/fat/fat.c:757-766 | on a volume that the loader takes for the type the tool wrote, the mark always ends the chain |
| `FatImage.FileMapped` | syslinux/libcore/fs/fat/fat.c:86-144 | reading a file the tool has chained, the loader finds its sectors in one piece from its first cluster on |
| `Btrfs.BinSearch` | syslinux/libcore/fs/btrfs/btrfs.c:28-56 | finds the item, or its place between the smaller and the greater ones |
| `Btrfs.ChunkMap.InsertMap` | syslinux/libcore/fs/btrfs/btrfs.c:74-102 | the map stays sorted and gains exactly the chunk, unless its start is known or the map is full |
| `Btrfs.ChunkMap.LogicalPhysical` | syslinux/libcore/fs/btrfs/btrfs.c:108-126 | equals a linear scan over the chunks |
| `Btrfs.KeysOrdered` | syslinux/libcore/fs/btrfs/btrfs.c:215-230 | the comparison is a total order |
| `Btrfs.KeysByField` | syslinux/libcore/fs/btrfs/btrfs.c:215-230 | the first field that differs decides: object, then type, then offset |
| `Btrfs.InnerLands` | syslinux/libcore/fs/btrfs/btrfs.c:260-271 | the best item of the chosen child is the best of the whole tree |
| `Btrfs.SearchTree` | syslinux/libcore/fs/btrfs/btrfs.c:248-289 | on a tree of any height whose keys rise by object, type and offset, and a cleared path: 0 if and only if the key is there, landing on the greatest key not above it or the first; the path leads there |
| `Printf.FormatInt` | syslinux/libcomcore/vsnprintf.c:44-166 | writes the prefix of the text that fits and nothing else, and returns the text's length, whatever the room |
| `Printf.PutNumber` | syslinux/libcomcore/vsnprintf.c:135-157 | the digits and tick marks from right to left |
| `Printf.IntLength` | syslinux/libcomcore/vsnprintf.c:97-133 | the text has exactly max(width, characters needed) characters |
| `Printf.NumberDenotes` | syslinux/libcomcore/vsnprintf.c:135-157 | the digits, tick marks ignored, denote the value in the base |
| `Printf.IntReadsBack` | syslinux/libcomcore/vsnprintf.c:44-166 | a reader of the text, in any base and under any flags, gets the value back |
| `Vsnprintf.Turn` | syslinux/libcomcore/vsnprintf.c:206-285 | one character of a directive leaves what the rest means unchanged |
| `Vsnprintf.Output` | syslinux/libcomcore/vsnprintf.c:286-443 | emits the conversion's text and takes its argument |
| `Vsnprintf.Vsnprintf` | syslinux/libcomcore/vsnprintf.c:168-454 | for every format that does not run out of its arguments or a string: returns the length of the unbounded text whatever n is; the buffer holds its first min(length, n - 1) characters and a NUL, nothing else changes |
| `Vsnprintf.FlagsAreSet` | syslinux/libcomcore/vsnprintf.c:206-231 | the flags of a directive count as a set |
| `Vsnprintf.IntegerReadsBack` | syslinux/libcomcore/vsnprintf.c:294-376 | every integer conversion prints its argument cut to the width of its rank |
| `Vsnprintf.PrecisionExact` | syslinux/libcomcore/vsnprintf.c:251-263 | with an asterisk and digits for precision, a string or character is converted if and only if the argument is not negative or the digits are all nines |
| `Vsnprintf.RunawayPrecision` | syslinux/libcomcore/vsnprintf.c:389-408 | "%.*5s" with -1 makes the loop count down from -5, out of any string |
| `Formats.SignedWidths` | syslinux/libcomcore/vsnprintf.c:305-333 | for every argument, %hhd, %hd, %d, %i, %ld and %lld print the number of 8, 16, 32, 32, 32 and 64 bits that it is cut to |
| `Formats.OtherWidths` | syslinux/libcomcore/vsnprintf.c:264-285 | %jd, %Ld and %qd take 64 bits, %zd and %td 32 |
| `Formats.UnsignedWidths` | syslinux/libcomcore/vsnprintf.c:335-370 | the same for %u, %x, %X and %o without a sign |
| `Formats.SignAndPrefix` | syslinux/libcomcore/vsnprintf.c:97-125 | minus, plus or blank, then 0x or 0X, then the digits |
| `Formats.Padded` | syslinux/libcomcore/vsnprintf.c:106-164 | a wider field is filled up with blanks in front or behind, or with zeros behind the prefix |
| `Formats.DigitsLook` | syslinux/libcomcore/vsnprintf.c:135-157 | digits of the base in the case asked for, and a mark before each group of three, or four in base 16 |
| `Formats.DigitsCount` | syslinux/libcomcore/vsnprintf.c:68-95 | at least as many digits as the precision, no needless zero, and one in front of octal with # |
| `Formats.StringLooks` | syslinux/libcomcore/vsnprintf.c:389-415 | a string is cut to the precision and stands at the right or left end of its field |
| `Formats.SimpleFormats` | syslinux/libcomcore/vsnprintf.c:378-443 | %s, %c and %% on their own |
| `Formats.NumbersRead` | syslinux/libcomcore/vsnprintf.c:233-263 | a width or precision written in decimal is that number |
| `Formats.StarWidth` | syslinux/libcomcore/vsnprintf.c:236-241 | an asterisk takes the width from the arguments, a negative one for the left end |
| `Checksums.InitCrc32c` | syslinux/libcore/fs/btrfs/crc32c.h:37-50 | fills the table of eight-step remainders |
| `Checksums.Crc32cLe` | syslinux/libcore/fs/btrfs/crc32c.h:29-35 | equals the checksum fed bit by bit (section 12.1 of RFC 3720) |
| `Checksums.TableByte` | syslinux/libcore/fs/btrfs/crc32c.h:29-35 | one look-up and one shift feed eight bits |
| `Checksums.CrcAppend` | syslinux/libcore/fs/btrfs/crc32c.h:29-35 | composes over concatenation |
| `Checksums.SumOfA` | syslinux/libcore/fs/btrfs/crc32c.h:14-35 | the CRC-32C of the letter a is c1d04330 |
| `Checksums.CombineCorrect` | tools/upxbc:369-381 | combining two Adler-32 sums gives the sum of the concatenation (section 2.2 of RFC 1950) |
| `Checksums.SumOfZeros` | tools/upxbc:517-517 | the Adler-32 of n zero bytes counts them modulo 65521 |
| `Checksums.SumOfAbc` | tools/upxbc:386-386 | the Adler-32 of the letters abc is 024d0127 |

## Left out

- Heap: freeing a pointer that is not live, and requests above 2^32 - 32 bytes, beyond what `ArenaRuns.RoundedFits` says of them.
- `malloc_safe`, `realloc` and the other allocation helpers above `_malloc`.
- FAT: a file on a broken chain is not read through the generic reader; `Fat.FatNextExtent` says what such a chain does. VFAT names and directory entries.
- ext2: a block number of 2^32 - 1 in a table of block numbers, and the length bit of extents that are allocated but not written (the code does not look at it).
- ext2: a hole in a triple-indirect tree of 4096-byte blocks has a length that does not fit 32 bits; such blocks lie beyond the 32-bit sizes the reader has.
- File systems with their own `searchdir`, `realpath` or `chdir` methods, and drivers whose `iget` returns an inode that already has a parent.
- `chdir`: what an access outside the buffer does, and what name is recorded for a path of 255 characters.
- Symlink sizes and path lengths are not bounded by 32 bits.
- Block cache: errors of the underlying read, which the code does not look at; an area too small for one entry; blocks of 65536 bytes, whose size does not fit its 16-bit field.
- Metadata on the disk: what a look-up outside the allocation table finds, and an extent node that claims more entries than its block holds (anything at all in the model).
- Disk: writes, geometry probing, which of the two paths later reads take, and what a CHS read does after its first stray call.
- Shuffler: copying the list and relocating the code, and the switch of processor modes.
- Data vector: tag 0; the caller is not told when a write fails, and neither does the model tell.
- btrfs: enumerating items (`next_leaf`, `next_slot`), reading the super block, and searches on a path that was not cleared.
- `Btrfs.ChunkMap.InsertMap`: the allocation of the map at the first insertion, which the code does not check.
- Formatted output: texts of 2^31 characters or more, and `int` overflow of widths and precisions written in the format; what happens once a string is left; the argument list is a list of values of the right kinds.
- NTFS, ISO 9660, the serial, console and screen drivers, the configuration parser, and the programs around UPX and mtools.
