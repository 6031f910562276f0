# Verified model of a teaching kernel: easy-fs, Sv39 paging, blocking synchronisation, pipes

This project models the parts of the repository that carry its hardest invariants and proves them for every input and every run.

- **easy-fs.** The 16-slot write-back block cache, the bitmaps, the three-tier block tree of a disk inode, the allocation
  regions, byte-wise reads and writes, directories with swap-with-last deletion and link counts, path lookup, formatting and
  remounting. The layers are stacked as in the source: `Vfs` calls `Efs` and `Layout`, which work on blocks through
  `BlockCache`. Each layer is proved to refine a simpler thing: the cache is a map from block ids to blocks, an inode is a byte
  sequence, a directory is a map from names to inode numbers, the whole volume is a table of inodes (`FileTable`).
  One invariant (`FsState.FsInv`) holds between all operations: each data block belongs to at most one slot of at most one inode
  tree, every block in a tree is marked in the bitmap, every unmarked data block is all zeros.
- **Memory.** The recycling frame allocator, the Sv39 radix table in flat physical memory (section 4.4, with the walk of section
  4.3.2, of the RISC-V Privileged Architecture specification, version 20211203) as a finite map, framed map areas, the fork copy,
  and user buffers split at page ends.
- **Synchronisation.** The scheduler queue, both mutexes, the semaphore and the condition variable, and four user programs on top
  of them (dining philosophers, bounded buffer, barrier, Peterson lock) as step systems over every interleaving, for any number of
  threads and rounds.
- **Pipe.** The ring buffer and the blocking read and write loops under any interleaving of any number of readers and writers.

The kernel is built in release mode, so the link count, a 32-bit counter, wraps instead of panicking. Where the source panics, the
model either returns an error value and states exactly when (`PageTable.Map`, `GetBlockCache`, `Dealloc`), or the call is required
to avoid the panic (disk full, file too large), and the invariants show that the remaining panics are out of reach.

`Valid()` of the class `Vfs.Vfs` includes `FsInv` and the exact contents of every inode. Every operation of the class keeps it.
`Format.Session` is a volume from its formatting on together with the operations made on it; `Session.Invariants` says what holds
after any operations at all, and what holds besides if each was allowed when it was made. `Bindings` proves what holds whatever is
linked where; `DirTree` and `Paths` what holds as long as no directory gets a second name. `Effects` says what each operation does
to kinds, link counts, bytes and the maps that directories are.

Blocks leak in the source: removing a directory entry shrinks the directory's size but frees nothing, so a removal that takes
the only record of the last block leaves that block marked and in no tree. `Usage` proves when this happens and that nothing else
leaks: after any operations the number of marked blocks without an owner is exactly what those removals lost.

Modules, bottom up: `Basics`, `Disk`, `BlockTree`, `Growth`, `Contents`, `BlockCache`, `Layout`, `Bitmaps`, `FsState`, `Efs`,
`Updates`, `InodeOps`, `Dirents`, `FileTable`, `Namespace`, `Bindings`, `Effects`, `DirTree`, `Paths`, `Vfs`, `Usage`, `Format`;
`FrameAllocator`, `PageTables`, `UserBuffers`, `MemorySets`; `Sync`, `Handoff`, `Waiting`, `Philosophers`, `BoundedBuffer`,
`Barrier`, `Peterson`; `Pipe`.

## Model

| member | source | states |
|---|---|---|
| `BlockCache.BlockCacheManager.constructor` | easy-fs/src/block_cache.rs:90-95 | a new cache shows exactly what the device holds |
| `BlockCache.BlockCacheManager.GetBlockCache` | easy-fs/src/block_cache.rs:97-126 | at most one slot per block; the view of every block is unchanged; fails exactly when all 16 slots are held and none is the block asked for, and never while fewer than 16 handles are out |
| `BlockCache.BlockCacheManager.FindUnreferenced` | easy-fs/src/block_cache.rs:105-113 | the first slot without a handle, if there is one |
| `BlockCache.BlockCacheManager.Evict` | easy-fs/src/block_cache.rs:77-82 | dropping a slot writes it back first: what readers see does not change |
| `BlockCache.BlockCacheManager.Sync` | easy-fs/src/block_cache.rs:61-66 | after syncing a slot the device agrees with it and the view is unchanged |
| `BlockCache.BlockCacheManager.Read` | easy-fs/src/block_cache.rs:68-70 | a read through a handle returns the block's value in the abstract map |
| `BlockCache.BlockCacheManager.Modify` | easy-fs/src/block_cache.rs:50-74 | a write through a handle changes that block of the abstract map and nothing else |
| `BlockCache.BlockCacheManager.Release` | easy-fs/src/block_cache.rs:105-113 | letting a handle go changes the pins only |
| `BlockCache.BlockCacheManager.SyncAll` | easy-fs/src/block_cache.rs:140-145 | with no block held, afterwards the device equals the abstract map |
| `BlockCache.BlockCacheManager.Lock` | easy-fs/src/block_cache.rs:130-138 | with at most two blocks held and the block not held, locking succeeds: no run-out panic and no double lock |
| `BlockCache.PinnedBound` | easy-fs/src/block_cache.rs:105-117 | if every slot is held there are at least as many handles as slots |
| `BlockTree.TotalStep` | easy-fs/src/layout.rs:179-197 | `total_blocks` grows by one data block and the index blocks that data block is the first to need |
| `BlockTree.DataBlocksFit` | easy-fs/src/layout.rs:169-176 | as many data blocks as hold the size, and no more |
| `BlockTree.TreeLength` | easy-fs/src/layout.rs:179-197 | the blocks of a tree with c data blocks number `total_blocks` |
| `BlockTree.TreePosition` | easy-fs/src/layout.rs:142-166 | where data block i sits in the order of acquisition |
| `BlockTree.Places` | easy-fs/src/layout.rs:142-295 | which block of the supply a file has where: direct slots, the indirect block and its words, the double-indirect block, then group after group of a block and its words |
| `BlockTree.StepsDisjoint` | easy-fs/src/layout.rs:142-166 | in a tree without repeats, different data blocks bring in different blocks, index blocks included |
| `BlockTree.DataDistinct` | easy-fs/src/layout.rs:142-166 | `get_block_id` is injective below the number of data blocks |
| `BlockTree.IndexFrame` | easy-fs/src/layout.rs:142-166 | the tree depends on the disk only through its index blocks |
| `BlockTree.GrowDirect` | easy-fs/src/layout.rs:228-232 | a new direct slot appends exactly that block to the tree |
| `BlockTree.GrowIndirect1` | easy-fs/src/layout.rs:247-255 | a new word of the indirect block appends its block, after the index block if it is the first |
| `BlockTree.GrowIndirect2` | easy-fs/src/layout.rs:283-292 | a new word two levels down appends its block and disturbs no earlier step |
| `BlockTree.HookGroup` | easy-fs/src/layout.rs:279-282 | hanging a second-level index block leaves the tree so far as it was |
| `Growth.StepDirect` | easy-fs/src/layout.rs:228-232 | one pass of the direct loop takes the next supplied block |
| `Growth.StepIndirect1` | easy-fs/src/layout.rs:247-255 | one pass of the indirect loop takes the next supplied block and writes an index block only |
| `Growth.TakeGroup` | easy-fs/src/layout.rs:279-282 | taking a second-level index block consumes one supplied block, pending until it indexes something |
| `Growth.StepIndirect2` | easy-fs/src/layout.rs:283-292 | one pass of the inner double-indirect loop takes the next supplied block |
| `Growth.Room` | easy-fs/src/layout.rs:212-295 | the supply of `blocks_num_needed` blocks never runs out part-way |
| `Growth.Finish` | easy-fs/src/layout.rs:200-208 | at the target exactly `blocks_num_needed` blocks are consumed, in order |
| `Layout.DiskInode.Initialize` | easy-fs/src/layout.rs:95-102 | an empty inode with one link |
| `Layout.DiskInode.GetBlockId` | easy-fs/src/layout.rs:142-166 | the direct slot, the word of the indirect block, or the word two levels down, for every data block; with two blocks held before the call the cache cannot run out |
| `Layout.DiskInode.FillIndirect1` | easy-fs/src/layout.rs:234-255 | the single-indirect tier is filled from the supply in order |
| `Layout.DiskInode.FillIndirect2` | easy-fs/src/layout.rs:257-294 | the double-indirect loop terminates with the tier filled up to the target |
| `Layout.DiskInode.FillPass` | easy-fs/src/layout.rs:276-293 | each pass of that loop makes progress and stops at the target |
| `Layout.DiskInode.IncreaseSize` | easy-fs/src/layout.rs:212-295 | for every old and new size: the tree becomes the old tree followed by exactly the needed prefix of the supply, only index blocks are written |
| `Layout.DiskInode.ClearSize` | easy-fs/src/layout.rs:299-367 | returns all blocks of the tree, index blocks included, in the order of acquisition, and leaves an empty inode |
| `Layout.GrowThenClear` | easy-fs/src/layout.rs:212-367 | grown from empty through any increasing sizes, then cleared: the blocks returned are the consumed prefix of the supply, in order |
| `Layout.Indirect1Flat` | easy-fs/src/layout.rs:310-327 | the first two tiers flatten to the direct slots, the index block and its words |
| `Layout.GroupFlat` | easy-fs/src/layout.rs:342-363 | one second-level block flattens to itself and its words |
| `Layout.DiskInode.ReadAt` | easy-fs/src/layout.rs:370-408 | as many bytes as [offset, min(offset + len, size)) has, byte i being byte offset + i of the file, across blocks and tiers |
| `Layout.DiskInode.WriteAt` | easy-fs/src/layout.rs:411-445 | the bytes from offset up to the size are overwritten; no other byte, no index block changes |
| `Contents.WriteData` | easy-fs/src/layout.rs:411-445 | changing bytes of a data block changes those bytes of the file and no others |
| `Contents.ContentFrame` | easy-fs/src/layout.rs:370-408 | a file reads the same on two disks that agree on its blocks |
| `Contents.GrowContent` | easy-fs/src/layout.rs:212-295 | growing with zeroed blocks extends the contents with zeros |
| `Contents.SliceIs` | easy-fs/src/layout.rs:370-408 | how long what a read returns is, and which byte each of its bytes is |
| `Contents.ReadAfterWrite` | easy-fs/src/vfs.rs:303-318 | any read after any write: the bytes written where the ranges overlap, else the old bytes, else zeros |
| `Contents.ReadBack` | easy-fs/src/vfs.rs:303-318 | what was written reads back |
| `Bitmaps.BitmapRegion.Alloc` | easy-fs/src/bitmap.rs:26-55 | sets and returns the lowest clear bit and nothing else; none exactly if all are set |
| `Bitmaps.BitmapRegion.Dealloc` | easy-fs/src/bitmap.rs:58-66 | clears that bit and nothing else; callers show that it is set |
| `Bitmaps.FindClear` | easy-fs/src/bitmap.rs:32-40 | the lowest clear bit of one block as word and position |
| `Bitmaps.DecomposeInverse` | easy-fs/src/bitmap.rs:74-78 | block, word and position give the bit number back |
| `Bitmaps.SetBitGet` | easy-fs/src/bitmap.rs:26-66 | after setting or clearing bit p every other bit is as before |
| `Bitmaps.LowestClear` | easy-fs/src/bitmap.rs:26-56 | the lowest clear bit is no higher than the number of set bits |
| `FsState.InodeSlots` | easy-fs/src/efs.rs:139-148 | distinct inode numbers occupy disjoint bytes, and no slot runs over the end of its block |
| `FsState.SetNodeGet` | easy-fs/src/efs.rs:139-148 | storing one inode leaves all others |
| `FsState.Commit` | easy-fs/src/vfs.rs:43-54 | storing a prepared node keeps the no-sharing invariant and every other inode's node, blocks and bytes |
| `FsState.TakeBlock` | easy-fs/src/efs.rs:166-168 | marking a free block keeps the invariant; the block is zero and in no tree |
| `FsState.GiveBlock` | easy-fs/src/efs.rs:171-179 | zeroing and unmarking a block of no tree keeps the invariant |
| `Efs.EasyFileSystem.GetDiskInodePos` | easy-fs/src/efs.rs:139-148 | block and slot of an inode; the slot lies inside the block, and the two give the inode number back |
| `Efs.EasyFileSystem.Open` | easy-fs/src/efs.rs:100-120 | the geometry is read back from the super block |
| `Efs.EasyFileSystem.AllocData` | easy-fs/src/efs.rs:166-168 | while fewer than `data_area_blocks` are in use: the lowest free block of the data area, zeroed and in no tree |
| `Efs.EasyFileSystem.DeallocData` | easy-fs/src/efs.rs:171-179 | exactly that block becomes free and zero; the bitmap's assertion cannot fail |
| `Efs.EasyFileSystem.AllocInode` | easy-fs/src/efs.rs:155-159 | the lowest free inode number, no inode disturbed |
| `Updates.GrowPrepared` | easy-fs/src/vfs.rs:192-208 | a grown tree of own and freshly allocated blocks shares nothing |
| `Updates.WritePrepared` | easy-fs/src/vfs.rs:308-318 | writing inside the tree keeps it unshared |
| `Updates.Spliced` | easy-fs/src/vfs.rs:308-318 | growing and then writing is splicing the buffer into the old contents, zeros in the gap |
| `InodeOps.Enlarge` | easy-fs/src/vfs.rs:192-208 | allocates exactly the needed blocks and grows the inode; no other inode changes |
| `InodeOps.ReadInode` | easy-fs/src/vfs.rs:303-306 | as many bytes as [off, min(off + len, size)) has, each the byte at its place |
| `InodeOps.WriteInode` | easy-fs/src/vfs.rs:308-318 | the buffer is spliced in, every other inode is as it was, the invariant holds |
| `InodeOps.InitInode` | easy-fs/src/vfs.rs:225-231 | a fresh inode is empty with one link |
| `InodeOps.ClearInode` | easy-fs/src/vfs.rs:281-294 | the inode is empty, its blocks and only they are free again |
| `InodeOps.GiveBack` | easy-fs/src/vfs.rs:289-291 | freeing a list of distinct blocks of no tree |
| `Vfs.Vfs.FindEntry` | easy-fs/src/vfs.rs:57-72 | the position of the first entry with the name |
| `Vfs.Vfs.FindInodeId` | easy-fs/src/vfs.rs:57-72 | looking a name up on the volume is looking it up in the table |
| `Vfs.Vfs.FindPath` | easy-fs/src/vfs.rs:138-168 | the loop over path components computes `Find`, which `Paths.WalkExact` describes |
| `Vfs.Vfs.ReadDirent` | easy-fs/src/vfs.rs:96-101 | the name of the first entry that bears the number |
| `Vfs.Vfs.NameForInode` | os/src/fs/inode.rs:200-216 | the recursion over ".." computes `NameFor` and ends, whatever is linked where, as long as every ".." is older |
| `Vfs.Vfs.ReadAt` | easy-fs/src/vfs.rs:303-306 | as many bytes as [off, min(off + len, size)) has, byte i being byte off + i of the file |
| `Vfs.Vfs.WriteAt` | easy-fs/src/vfs.rs:308-318 | the file is as long as it was or as the write reaches; each byte is the one written, else the old one, else zero; kind, links and every other inode are as before; the blocks in use grow by what the file grew; the device is in sync |
| `Vfs.Vfs.Clear` | easy-fs/src/vfs.rs:297-300 | the inode is empty, exactly `total_blocks` blocks are free again, and the device is in sync |
| `Vfs.Vfs.CreateInode` | easy-fs/src/vfs.rs:211-269 | fails exactly if the name is taken; otherwise the table gets the new inode and one entry, and the blocks in use grow by what the two directories take |
| `Vfs.Vfs.NewInode` | easy-fs/src/vfs.rs:223-231 | the next inode number, never reused |
| `Vfs.Vfs.InitializeDir` | easy-fs/src/layout.rs:104-131 | a new directory holds the two dot entries |
| `Vfs.Vfs.LinkInode` | easy-fs/src/vfs.rs:346-373 | fails exactly if the name is taken; otherwise one entry and one link more, and the blocks in use grow by what the directory takes |
| `Vfs.Vfs.UnlinkName` | easy-fs/src/vfs.rs:376-432 | fails exactly if there is no such entry; otherwise the entry is gone and one link less; an inode that had one link, file or directory, is empty and its blocks are free, otherwise contents and blocks in use stay; no third inode changes |
| `Vfs.Vfs.RemoveEntry` | easy-fs/src/vfs.rs:379-418 | the swap-with-last on the locked directory |
| `Vfs.Vfs.SwapOut` | easy-fs/src/vfs.rs:405-413 | the last record replaces the removed one, the directory is one record shorter, no other inode changes |
| `Vfs.Vfs.DropLink` | easy-fs/src/vfs.rs:419-427 | one link less; an inode that had one link, of either kind, is empty and exactly its blocks are free, otherwise its contents stay |
| `Dirents.EncodeDecode` | easy-fs/src/layout.rs:459-496 | an entry reads back as written if and only if its name has no NUL; otherwise the name is cut there |
| `Dirents.EncodeBytes` | easy-fs/src/layout.rs:459-496 | name, zero padding and the little-endian number, byte by byte |
| `Dirents.AppendEntry` | easy-fs/src/vfs.rs:232-246 | one record written at the end is one entry more |
| `Dirents.SwapRemoveEntries` | easy-fs/src/vfs.rs:405-413 | the byte-level swap is the entry-level swap |
| `FileTable.CreateOk` | easy-fs/src/vfs.rs:211-269 | creating keeps directories whole and adds one entry |
| `FileTable.LinkOk` | easy-fs/src/vfs.rs:346-373 | linking does too |
| `FileTable.UnlinkOk` | easy-fs/src/vfs.rs:376-432 | unlinking keeps directories whole |
| `FileTable.WriteBytes` | easy-fs/src/vfs.rs:308-318 | what a write makes of the table, byte by byte |
| `Namespace.LookupIsMap` | easy-fs/src/vfs.rs:57-72 | with unique names the scan finds exactly what the map holds |
| `Namespace.AppendIsAdd` | easy-fs/src/vfs.rs:232-246 | appending an entry with a new name adds one binding |
| `Namespace.SwapIsRemove` | easy-fs/src/vfs.rs:405-413 | swap-with-last removes exactly one binding and keeps all others |
| `Namespace.CountInSwap` | easy-fs/src/vfs.rs:405-427 | the number of entries naming an inode drops by one exactly for the removed one |
| `Effects.DirLookup` | easy-fs/src/vfs.rs:57-72 | a name is found exactly if the map that a directory is has it |
| `Effects.FreshEffect` | easy-fs/src/efs.rs:83-94 | a new volume is the root alone, with one link and both dots naming itself |
| `Effects.MakeEffect` | easy-fs/src/vfs.rs:211-269 | one more inode, empty with one link or with the two dots, and one more binding; every other inode, kind, link count and byte is as before; nothing at all if the name is taken |
| `Effects.LinkEffect` | easy-fs/src/vfs.rs:346-373 | one more binding and one more link, modulo 2^32; all else is as before |
| `Effects.RemoveEffect` | easy-fs/src/vfs.rs:376-432 | one binding less and one link less; the inode that had one link, file or directory, is empty; all else is as before |
| `Effects.WriteEffect` | easy-fs/src/vfs.rs:308-318 | the operation writes the bytes given at the place given, and nothing else |
| `Effects.TruncateEffect` | easy-fs/src/vfs.rs:281-300 | the inode is empty; kind, links and every other inode are as before |
| `Bindings.CreateKeeps` | easy-fs/src/vfs.rs:211-269 | creating under any new name without NUL that is not a dot, in any directory, keeps names unique and every link count right |
| `Bindings.LinkExact` | easy-fs/src/vfs.rs:346-373 | a second name for any inode, file or directory, keeps them right if and only if the 32-bit count does not wrap |
| `Bindings.UnlinkExact` | easy-fs/src/vfs.rs:376-432 | removing any entry keeps names unique, and keeps the counts right if and only if `KeepsCounts`: not a dot, and a directory that loses its last name holds only dots (or the one odd case of a dot in a directory named only by itself) |
| `Bindings.UnlinkSpoils` | easy-fs/src/vfs.rs:376-432 | a directory with one file in it, removed, leaves the file with a wrong count |
| `Bindings.ClearExact` | os/src/fs/inode.rs:113-131 | truncating an inode keeps the counts right if and only if it is a file or a directory that holds only dots |
| `Bindings.ClearSpoils` | os/src/fs/inode.rs:113-131 | a directory with one file in it, truncated, has a wrong count |
| `Bindings.FileKeeps` | easy-fs/src/vfs.rs:281-318 | what a file holds is no matter |
| `Bindings.RunKeeps` | easy-fs/src/vfs.rs:192-432 | in every state of every run, hard links to directories included: names unique in every directory, each nlink the number of entries naming the inode other than the dots (plus one for the root) |
| `Bindings.FreshInv` | easy-fs/src/efs.rs:83-94 | a new volume is such a state |
| `DirTree.CreateKeepsTree` | easy-fs/src/vfs.rs:211-269 | creating keeps the directories a tree, under any name without NUL that is not a dot |
| `DirTree.UnlinkKeepsTree` | easy-fs/src/vfs.rs:376-432 | so does removing any name, of a directory that is not empty too, whatever the link counts |
| `DirTree.ClearKeepsTree` | os/src/fs/inode.rs:113-131 | and truncating any inode, a directory that is not empty too |
| `DirTree.UpExact` | easy-fs/src/vfs.rs:211-432 | of all that can be asked for, with names that read back, ways up are spoiled exactly by a new ".." in a directory other than the root that lacks it, unless it names an older directory |
| `DirTree.UpLoops` | easy-fs/src/vfs.rs:211-269 | an empty directory, truncated, in which a directory ".." is then made: each is the parent of the other, and `name_for_inode` never ends |
| `DirTree.TreeRunKeeps` | easy-fs/src/vfs.rs:192-432 | every state of every trace without hard links to directories is a tree: each directory is named at most once, in the older directory its ".." says |
| `DirTree.UpRunKeeps` | easy-fs/src/vfs.rs:192-432 | in every trace without such an operation, hard links to directories and spoiled counts included, ".." leads to an older directory, so going up comes to an end |
| `DirTree.TreeIsUp` | easy-fs/src/vfs.rs:192-432 | a trace without hard links to directories, with no new dots, is such a trace |
| `Paths.SplitJoin` | easy-fs/src/vfs.rs:138-168 | splitting at slashes distributes over joining with a slash |
| `Paths.FindComposes` | easy-fs/src/vfs.rs:138-168 | `find(p/q)` is `find(p)` and then `find(q)` from there |
| `Paths.WalkExact` | easy-fs/src/vfs.rs:138-168 | a path leads to an inode exactly if a chain of directories does, each listing the next under its component; so it finds nothing if a component is not listed or lies below a file |
| `Paths.NameInnerLeadsBack` | os/src/fs/inode.rs:200-216 | the recursion ends, and its result looked up from the root is the directory, if the way up is spelled |
| `Paths.NameClimbs` | os/src/fs/inode.rs:200-216 | the recursion yields a name exactly if the parents climb to the root and the names they list spell it |
| `Paths.NameExact` | os/src/fs/inode.rs:194-216 | the name derived for a directory of a tree leads back to it if and only if every directory on the way up has its "..", is listed there, and has a name that is not empty and holds no slash |
| `Paths.EmptyNameLost` | os/src/fs/inode.rs:194-216 | a directory with an empty name, which only the library call `create_dir("")` makes, is called "/", which leads to the root |
| `Paths.TruncatedNameless` | os/src/fs/inode.rs:117-131 | an empty directory opened for truncation loses its "..", and deriving its name panics although a path still reaches it |
| `Paths.NameLeadsBack` | os/src/fs/inode.rs:194-216 | in every trace without hard links to directories, odd directory names, truncated directories or removed dots: the name of every directory that any path reaches leads back to it, though directories are removed with what is in them |
| `Usage.ShedExact` | easy-fs/src/vfs.rs:402-413 | a removal takes blocks out of a directory without freeing them exactly if the number of entries is one more than a multiple of 16; then one to three blocks |
| `Usage.CutIs` | easy-fs/src/vfs.rs:402-413 | how many: the data block and the index blocks it was the first to need |
| `Usage.LeakedSize` | easy-fs/src/vfs.rs:376-432 | on every volume that satisfies the invariant, the blocks in use are those of the trees and the leaked ones |
| `Usage.NoneShed` | easy-fs/src/vfs.rs:192-432 | nothing is lost in a trace exactly if no operation of it loses anything |
| `Usage.MakeRemoveLoses` | easy-fs/src/vfs.rs:211-432 | in a directory of full blocks, making a file and removing it loses a block and leaves the directory as long as it was |
| `Usage.LeakingTrace` | easy-fs/src/vfs.rs:211-432 | a shortest losing trace: root truncated, a file made and removed |
| `Format.DivideTiles` | easy-fs/src/efs.rs:34-59 | the regions tile the device and the data bitmap is the smallest that covers what it leaves |
| `Format.WipedInv` | easy-fs/src/efs.rs:61-80 | a zeroed volume satisfies the invariant and shows nothing |
| `Format.CreateVolume` | easy-fs/src/efs.rs:29-97 | formatting yields a valid volume with a root directory in one block, synced |
| `Format.Remount` | easy-fs/src/efs.rs:100-120 | a new cache over a synced device shows the same table |
| `Format.Perform` | easy-fs/src/vfs.rs:192-432 | every operation that can be asked for does on the volume, through cache, bitmaps and trees, what `Apply` does on the table; the blocks in use change with those the inodes take, except for what the operation loses |
| `Format.Session.constructor` | easy-fs/src/efs.rs:29-97 | formatting begins a run |
| `Format.Session.Do` | easy-fs/src/vfs.rs:192-432 | each operation, whether it keeps the counts or not, extends the run: the volume always shows the last state of it |
| `Format.Session.Invariants` | easy-fs/src/vfs.rs:192-432 | after any operations: no block shared, every used block marked, free blocks zero, the contents as the table says, and as many blocks marked without an owner as removals have lost, none exactly if no removal lost any; if every operation kept the counts, they are right and names unique; if none spoiled a way up, every way up ends |
| `Format.Session.InodeName` | os/src/fs/inode.rs:194-216 | worked out on the volume after any operations that spoil no way up; without hard links to directories, the name of a directory leads back to it exactly if the way up is spelled |
| `FrameAllocator.StackFrameAllocator.Alloc` | os/src/mm/frame_allocator.rs:123-136 | a managed frame that was not out, the one given back last if there is one, else the next fresh one; none exactly if all are out |
| `FrameAllocator.StackFrameAllocator.AllocMore` | os/src/mm/frame_allocator.rs:137-147 | consecutive fresh frames, highest first; refuses exactly if `current + pages >= end`, one frame early |
| `FrameAllocator.StackFrameAllocator.Dealloc` | os/src/mm/frame_allocator.rs:148-157 | accepts exactly a frame that is out or one below the managed range, and stacks it; the allocator stays valid exactly if it was not the latter |
| `FrameAllocator.PhysMemory.FrameAlloc` | os/src/mm/frame_allocator.rs:28-33 | the frame handed out is zeroed and no other frame is touched |
| `PageTables.PteFields` | os/src/mm/page_table.rs:39-80 | page number, flags and validity read back from an entry as they were put in |
| `PageTables.WithVBits` | os/src/mm/page_table.rs:182-187 | `flags | V` has, bit by bit, the flags given and V |
| `PageTables.Indexes` | os/src/mm/address.rs:189-197 | the loop yields the three nine-bit fields, top first |
| `PageTables.IndexesInjective` | os/src/mm/address.rs:189-197 | below 2^27, equal indexes mean equal page numbers |
| `PageTables.HangMid` | os/src/mm/page_table.rs:146-151 | a zeroed frame below the root changes no mapping and keeps table frames distinct |
| `PageTables.HangLeaf` | os/src/mm/page_table.rs:146-151 | nor does one below a middle frame |
| `PageTables.WriteLeaf` | os/src/mm/page_table.rs:182-193 | writing one leaf entry changes one mapping |
| `PageTables.TableFrame` | os/src/mm/page_table.rs:159-180 | the map depends on memory only through the table's own frames |
| `PageTables.PageTable.FindPteCreate` | os/src/mm/page_table.rs:133-157 | the leaf frame of a page, building missing levels from fresh frames without changing any mapping; fails only without frames |
| `PageTables.PageTable.FindPte` | os/src/mm/page_table.rs:159-180 | the leaf frame, if the way exists |
| `PageTables.PageTable.Translate` | os/src/mm/page_table.rs:109-111 | an entry if the way to it exists; it is valid exactly for mapped pages, and then holds the page number and flags given |
| `PageTables.PageTable.Map` | os/src/mm/page_table.rs:182-187 | one binding more, whose flags are bit by bit those given and V, and which the Sv39 walk then finds with them if they make a leaf; or nothing changed and the reason: already mapped, or out of frames |
| `PageTables.PageTable.Unmap` | os/src/mm/page_table.rs:189-193 | one binding less; fails exactly if there was none |
| `PageTables.HardwareAgrees` | os/src/mm/page_table.rs:133-193 | the Sv39 walk, which faults on reserved bits too, finds exactly the mapped pages whose flags make a leaf, and faults everywhere else |
| `PageTables.MappedWalk` | os/src/mm/page_table.rs:133-193 | the hardware finds every page mapped with flags that make a leaf, with those flags and V |
| `UserBuffers.TranslatedByteBuffer` | os/src/mm/page_table.rs:197-223 | terminates; only non-empty segments, together the physical bytes of the range in order |
| `UserBuffers.UserBufferIterator.Next` | os/src/mm/page_table.rs:301-319 | the next byte, or the end exactly after the last |
| `UserBuffers.VisitBuffer` | os/src/mm/page_table.rs:301-319 | position k of the iteration is the physical byte of virtual address ptr + k: its frame and its offset, for all len positions |
| `MemorySets.MapArea.MapOne` | os/src/mm/memory_set.rs:78-95 | framed: a zeroed frame of its own, used by nobody before; identical and linear: the frame the page number gives |
| `MemorySets.MapArea.Map` | os/src/mm/memory_set.rs:104-109 | all pages of the area and no others are mapped, with the bits of its permission and V; framed: to distinct fresh frames; identical: page v to frame v; linear: to v + offset |
| `MemorySets.MapArea.Unmap` | os/src/mm/memory_set.rs:111-116 | all pages are unmapped, exactly the frames of a framed area are given back |
| `MemorySets.UnmapOne` | os/src/mm/memory_set.rs:97-103 | neither giving the frame back nor unmapping can panic |
| `MemorySets.MemorySet.CopyArea` | os/src/mm/memory_set.rs:330-335 | the child's pages of the area read as the parent's; the parent's frames are untouched |
| `MemorySets.MemorySet.ForkArea` | os/src/mm/memory_set.rs:326-336 | maps and copies one area, or reports that the frames ran out |
| `MemorySets.MemorySet.FromExistedUser` | os/src/mm/memory_set.rs:321-338 | the child maps the same pages, with bit by bit the same permissions and equal contents, on frames that were free before |
| `MemorySets.PermissionsKept` | os/src/mm/memory_set.rs:321-338 | page by page, parent and child have the same flags, which are the permission of the area and V |
| `MemorySets.ContentsKept` | os/src/mm/memory_set.rs:321-338 | page by page, the frame of the child was free and holds what the frame of the parent held |
| `MemorySets.WritesStayApart` | os/src/mm/memory_set.rs:321-338 | whatever stores either side makes afterwards, in any order, each side reads as if only its own had happened, and the child's table is untouched |
| `Sync.Scheduler.Wakeup` | os/src/task/manager.rs:61-66 | a blocked task goes to the end of the ready queue; every task stays in exactly one place |
| `Sync.Scheduler.BlockCurrent` | os/src/task/mod.rs:57-68 | the running task leaves processor and queue |
| `Sync.Scheduler.SuspendCurrent` | os/src/task/mod.rs:39-55 | the running task goes to the end of the ready queue |
| `Sync.Scheduler.RunNext` | os/src/task/processor.rs:108-133 | the task that has been ready longest runs next |
| `Sync.MutexSpin.TryLock` | os/src/sync/mutex.rs:29-41 | one pass of the loop takes the mutex or yields |
| `Sync.MutexBlocking.Lock` | os/src/sync/mutex.rs:73-82 | takes a free mutex or blocks at the end of its queue |
| `Sync.MutexBlocking.Unlock` | os/src/sync/mutex.rs:84-92 | hands the locked mutex to the first waiter, or frees it |
| `Sync.Semaphore.UpSem` | os/src/sync/semaphore.rs:28-34 | the count rises by one; the first waiter, if there is one, leaves the queue for the end of the ready queue |
| `Sync.Semaphore.DownSem` | os/src/sync/semaphore.rs:36-45 | the count falls by one; blocks exactly if it was not positive, and then at the end of the queue; the ready queue is as it was |
| `Sync.SemKept` | os/src/sync/semaphore.rs:28-45 | a negative count is the number of waiters, after every up and down |
| `Sync.Condvar.Signal` | os/src/sync/condvar.rs:29-34 | the first waiter, if any, leaves the queue for the end of the ready queue |
| `Sync.Condvar.WaitBlock` | os/src/sync/condvar.rs:36-42 | unlocks a mutex of either kind and queues up at the end in one step, waking the first waiter of a blocking one |
| `Handoff.StepKeeps` | os/src/sync/mutex.rs:72-93 | every lock by a task that does not wait, and every unlock by a holder, keeps: one owner while locked, waiters only while locked and none twice, given in the order asked |
| `Handoff.OneOwner` | os/src/sync/mutex.rs:72-93 | in every run of any tasks at most one owns the mutex, and tasks wait only while one does |
| `Handoff.Fifo` | os/src/sync/mutex.rs:72-93 | in every run of any tasks, of two calls to lock the earlier returns first |
| `Handoff.OwnerNotQueued` | os/src/sync/mutex.rs:72-93 | an owner is not queued unless it has called lock again |
| `Handoff.RelockSticks` | os/src/sync/mutex.rs:72-82 | in every run, an owner that calls lock again is owner and waits at every later point, and nobody unlocks or is given the mutex |
| `Waiting.StepKeeps` | os/src/sync/semaphore.rs:28-45 | every up, and every down by a task that does not wait, keeps: a negative count is the number of waiters, woken and waiting ones are those that blocked, in order |
| `Waiting.Fifo` | os/src/sync/semaphore.rs:28-45 | in every run of ups and downs by any tasks, blocked downs return in the order they blocked |
| `Waiting.Conserved` | os/src/sync/semaphore.rs:28-45 | in every run, downs that have returned are at most the initial count and the ups together, and exactly as many while any waits |
| `Waiting.CondFifo` | os/src/sync/condvar.rs:29-44 | in every run of waits and signals by any tasks, waits are ended in the order they were made |
| `Philosophers.ForkArithmetic` | user/src/bin/phil_din_mutex.rs:36-39 | the two forks of a philosopher, lower first |
| `Philosophers.StepKeeps` | user/src/bin/phil_din_mutex.rs:34-64 | every step keeps each fork a hand-off mutex whose owner is who holds the fork and whose queue is who waits for it |
| `Philosophers.NeighboursApart` | user/src/bin/phil_din_mutex.rs:50-60 | in every run, philosophers who share a fork never eat together |
| `Philosophers.ForksFifo` | user/src/bin/phil_din_mutex.rs:50-61 | in every run each fork is given in the order it was asked for, as the mutex promises any tasks |
| `Philosophers.NobodyWaits` | user/src/bin/phil_din_mutex.rs:38-51 | min-then-max locking admits no cycle of waiters |
| `Philosophers.SomeoneCanStep` | user/src/bin/phil_din_mutex.rs:34-64 | no deadlock, for every N from two up and any number of rounds |
| `Philosophers.RunsEnd` | user/src/bin/phil_din_mutex.rs:40-61 | every run has at most six steps per philosopher and round |
| `Philosophers.EveryoneDines` | user/src/bin/phil_din_mutex.rs:34-64 | a run that cannot go on is one in which everyone has eaten every round |
| `BoundedBuffer.StepSems` | os/src/sync/semaphore.rs:28-45 | every step keeps the accounts of all three semaphores: free units and held ones make one turn, the slots without unread items, the unread items |
| `BoundedBuffer.OneInside` | user/src/bin/mpsc_sem.rs:30-35 | one thread at a time is between its down and its up of the mutex |
| `BoundedBuffer.NoOverwrite` | user/src/bin/mpsc_sem.rs:32-33 | the slot a producer writes holds no unread item |
| `BoundedBuffer.StepKeeps` | user/src/bin/mpsc_sem.rs:27-51 | every step of every thread keeps semaphores, indexes, ring and counts in agreement |
| `BoundedBuffer.NothingLost` | user/src/bin/mpsc_sem.rs:27-51 | in every run, the output followed by the unread slots is what the producers stored, in order |
| `BoundedBuffer.NoneStuck` | user/src/bin/mpsc_sem.rs:27-51 | no deadlock: when every thread is done or waits, all are done |
| `BoundedBuffer.AllDelivered` | user/src/bin/mpsc_sem.rs:54-75 | a run that cannot go on has printed every item, each id exactly as often as produced |
| `BoundedBuffer.RunsEnd` | user/src/bin/mpsc_sem.rs:27-51 | every run has at most sixteen steps per item |
| `Barrier.StepKeeps` | user/src/bin/barrier_condvar.rs:32-47 | every step keeps the invariant of every barrier |
| `Barrier.BarrierObject.Take` | user/src/bin/barrier_condvar.rs:32-47 | each step of `block`, as calls on a spinning mutex and a condition variable, does what the step system says |
| `Barrier.AllArrivedFirst` | user/src/bin/barrier_condvar.rs:32-47 | in every run nobody leaves a barrier before all have arrived at it |
| `Barrier.MutexHeld` | os/src/sync/condvar.rs:36-44 | a thread back from `wait`, and whoever touches the count, holds the mutex alone |
| `Barrier.SignalComing` | user/src/bin/barrier_condvar.rs:40-45 | once all have arrived, a sleeper means that some thread still has to signal |
| `Barrier.SomeoneCanStep` | user/src/bin/barrier_condvar.rs:32-71 | no deadlock over any number of barriers passed one after the other |
| `Barrier.RunsEnd` | user/src/bin/barrier_condvar.rs:32-71 | at most nine steps per thread and barrier are more than failed tries of a mutex |
| `Peterson.StepKeeps` | user/src/bin/adder_peterson_spin.rs:22-57 | every single load or store keeps the invariant |
| `Peterson.MutualExclusion` | user/src/bin/adder_peterson_spin.rs:31-47 | in every run the two threads are never both in the critical section |
| `Peterson.OvertakenOnce` | user/src/bin/adder_peterson_spin.rs:31-43 | while one thread waits the other enters at most once |
| `Peterson.Progress` | user/src/bin/adder_peterson_spin.rs:31-43 | they are never both stuck in the wait loop |
| `Peterson.AllCounted` | user/src/bin/adder_peterson_spin.rs:49-57 | when both are done the sum is 2 * PER_THREAD |
| `Pipe.PipeRingBuffer.ReadByte` | os/src/fs/pipe.rs:45-54 | takes the first byte of the queue that head, tail and status encode |
| `Pipe.PipeRingBuffer.WriteByte` | os/src/fs/pipe.rs:55-63 | appends a byte to it |
| `Pipe.PipeRingBuffer.AvailableRead` | os/src/fs/pipe.rs:64-80 | the length of the queue |
| `Pipe.PipeRingBuffer.AvailableWrite` | os/src/fs/pipe.rs:81-88 | the free space |
| `Pipe.PipeRingBuffer.ReadPass` | os/src/fs/pipe.rs:130-165 | one pass of the read loop between two yields |
| `Pipe.PipeRingBuffer.WritePass` | os/src/fs/pipe.rs:172-193 | one pass of the write loop between two yields |
| `Pipe.ReadIs` | os/src/fs/pipe.rs:130-165 | what a pass of the read loop takes and how it ends: on an empty pipe, when the buffer is full, when the pipe runs empty |
| `Pipe.WriteIs` | os/src/fs/pipe.rs:172-193 | what a pass of the write loop stores and how it ends: on a full pipe, when all is written, when the pipe fills up |
| `Pipe.RunKeeps` | os/src/fs/pipe.rs:125-193 | in every interleaving, bytes delivered followed by bytes buffered are the bytes accepted |
| `Pipe.ShortReadDrained` | os/src/fs/pipe.rs:125-165 | a read returns short only when the writers are gone and everything accepted has been delivered |
| `Pipe.RestsOnlyUnread` | os/src/fs/pipe.rs:125-193 | a run comes to rest only when every read has returned, and then every write has too and the pipe is closed, or the writes wait for room in a full pipe |
| `Pipe.RunsEnd` | os/src/fs/pipe.rs:125-193 | in every run at most one step per byte wanted or offered, per call and for closing is more than a yield |

## Left out

- Blocks are typed views (super block, bitmap, inodes, raw bytes with 32-bit words) instead of pointer casts; the four-byte little-endian words of index blocks and the 32 bytes of a directory entry are encoded and decoded explicitly.
- The disk inode is copied out of its block, worked on, and stored back, where the source borrows it in place under the block's lock; the lock is held over the same span.
- Cache handles are counted in the slot (`handles`) instead of by reference counting, and a locked block is one with a handle; one device only, since the lookup keys on the block id alone.
- Vfs.Vfs.WriteAt: regular files and non-empty buffers only, and the call must fit the device and the largest file size; beyond that the source panics or indexes out of range.
- Vfs.Vfs.CreateInode: the call must fit the device when the name is new; a full bitmap is a panic in the source.
- Efs.EasyFileSystem.AllocData: fewer than `data_area_blocks` blocks are in use, otherwise the source panics or leaves the data area.
- Bindings.RunKeeps: names without NUL and other than the dots, at most 27 bytes; a name with a NUL is cut on the way back (`Dirents.EncodeDecode`) and a longer one panics. Links that would wrap the count, and removals and truncations that spoil it, are not part of a run; the exact conditions are `LinkExact`, `UnlinkExact` and `ClearExact`.
- Vfs.Vfs.NameForInode: every ".." is older than its directory; otherwise the source may not end (`DirTree.UpLoops`).
- Paths.NameLeadsBack: no directory has a second name; with one, ".." need not be where the name lies.
- Names are bytes; UTF-8 checks, `ls`, `dirents` and the listing cursors are not modelled.
- Crash atomicity part-way through an operation: the source has no journal, and `link` and most `unlink` calls do not sync.
- `copy_data`, ELF loading, the kernel space, mmap and file mappings are not modelled; the fork copy is for spaces of framed areas, which user spaces are.
- UserBuffers.TranslatedByteBuffer: the whole range is mapped and ends below 2^39; the source panics where the way to an entry is missing, and takes the frame number of an invalid entry as it is.
- Philosophers.SomeoneCanStep: all forks exist before anyone asks for one. The program starts each thread right after its own mutex, and locking a missing mutex returns -1 without locking.
- Thinking and eating times, sleeping and the printed chart are not modelled; a thread may be delayed for any number of other steps at any point.
- Barrier.RunsEnd: that a spinning thread gets the mutex eventually needs a fair scheduler and is not stated; the lazily created barriers exist from the start.
- In the step systems an increment of TAIL or FRONT under the mutex is one step; each load and store is a step of its own in the Peterson lock and for the barrier's count.
- Task exit, process teardown, signals, timers, nested trap handling, context switching and the idle loop's bookkeeping.
- Drivers, interrupts, networking, heap allocator, logging, backtraces, syscall argument marshalling and the remaining user programs.
