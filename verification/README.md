# Verified model of a small RISC-V kernel

This project models the parts of the kernel under `risc_v/src` that carry real invariants and
proves them in Dafny: the page allocator and its Sv39 page tables, the kernel heap, reading and
writing Minix 3 files over a sector disk, the path cache, the virtqueue block driver, and the
process list with its scheduler. `dafny verify dfyconfig.toml` checks everything.

## How it is laid out

| file | what it models |
|---|---|
| `Common.dfy` | `Option`, 64-bit words and a fact about division that several files use |
| `HeapChunks.dfy`, `HeapRuns.dfy` | the kernel heap as a list of chunks: first fit, split, one-pass coalescing, and what every run of calls keeps |
| `KernelHeap.dfy` | the same calls on the heap's 64-bit words, rewriting in-band headers in place |
| `PageAllocator.dfy` | page descriptors in an array, read as a set of disjoint runs; the frames they stand for |
| `Sv39.dfy` | page-table entries, the three-level tree that memory spells out, `map`, `virt_to_phys`, `unmap` |
| `ProcessPages.dfy`, `ManyProcesses.dfy` | every page a process takes and gives back, from creation through `brk` to `Drop`; any number of processes side by side |
| `Disk.dfy` | `memcpy`, and byte access to a disk of sectors |
| `MinixFile.dfy`, `MinixRead.dfy` | a file as a function of the disk's bytes; `read` as nested loops over shared buffers |
| `MinixHoles.dfy` | the file's own end and blocks, and when `read` delivers them |
| `MinixWrite.dfy` | `write` on the inputs for which it does what is meant, and write-then-read |
| `PathCache.dfy`, `FsCache.dfy` | the cached paths against walking a path; `get_inode`, `cache_at`, `open` on disk bytes |
| `Virtqueue.dfy` | driver and device as steps over the rings, the driver's code on arrays |
| `DriverHeap.dfy` | the driver taking its requests from the kernel heap and giving them back |
| `Processes.dfy` | the process list and `schedule` |
| `BlockWait.dfy`, `KernelSteps.dfy` | processes, scheduler and driver together: who waits for which request |

Where the original changes things in place the model does too: classes with arrays, or with
sequences and maps that methods reassign, each method tied to a specification function; what is
promised is then proved of those functions. Shifts and masks on 64-bit words are written as
division and remainder. Pointers are offsets: words from the heap's start, frames from the start
of page memory, bytes on the disk. Clocks, the device's choices and the order of events are
parameters. A trap is one atomic step.

Where the code does not do what its comments or names say, the code is followed and the exact
condition is proved:

- `memcpy` copies all `n` bytes only if `n < 8` or 8 divides `n` (`CopiesAll`), so `read` delivers
  the bytes it counts exactly when every per-block piece has such a length (`ReadExactIff`).
- `read` clips to the inode's size without subtracting the offset; it returns the file's own count
  exactly under the condition of `ReadEndIff`, and not for `ReadsPastEnd`.
- `read` skips zero zones; the k-th block it goes through is block k of the file exactly when no
  block up to k is a hole (`BlockInPlaceIff`, `SparseFile`).
- One coalescing pass steps over each chunk it has merged; the heap therefore keeps at most one
  adjacent free pair rather than none (`ReachableInv`). A `kfree` leaves one exactly under the
  condition of `ReleaseLeavesPairIff`, and `PairIsReached` is a run that does.
- Page descriptors count pages of the whole heap, descriptor area included; all runs handed out
  lie inside the heap exactly under the condition of `RunsInsideHeap`, which fails for every heap
  of more than 8192 pages (`LargeHeapOverruns`). The last descriptor is never used.
- The arms of system calls 180 and 181 set the caller waiting before `block_op` looks at the
  request and ignore its answer; waits and requests match afterwards exactly when its checks pass
  (`CallMatchesIffAccepted`), and a caller that was rejected waits for ever
  (`RejectedWaitsForever`).
- `load_proc` takes `NEXT_PID + 1` but advances by one; PIDs are distinct exactly when no kernel
  process is created right after a load (`PidsDistinctIff`). Statements about runs are about
  kernel processes.
- Deleting the front process makes `schedule` look at its successor last; it is picked exactly
  when no other process can run (`DeletionSkipsSuccessor`).
- `brk` rounds the size up to pages but starts at the old break wherever it lies in its page, so
  the last addresses may get no page; all get one exactly under the condition of `BrkCoversIff`
  (`BrkMissesPage` fails it).
- `cache_at` reads one block of a directory, so files at or below its 17th and later entries are
  not found by `open` (`LastFileIsMissed`). The cache agrees with walking exactly when there are
  neither such files nor garbled ones (`CacheAgreesIff`). Paths with `.` or `..` are never found.
- `cache_at` copies its path byte by byte as characters, which is a copy exactly for ASCII
  (`RecodeIsCopy`), so a file below a directory with another name is stored under a garbled key
  (`GarbledIsMissed`); file names may be anything.
- The directory buffer is sized with `& !BLOCK_SIZE`; the entries fit exactly under the condition
  of `DirectoryFits`.
- `syc_read` rounds up in 32 bits, which is right exactly when `offset + size + 511` is below 2^32
  (`EndRoundsIff`); of the zones this excludes number 2^22 - 1 (`LastZoneOverflows`), so disks are
  taken to be smaller than 4 GiB by one block.

## Model

| member | source | states |
|---|---|---|
| HeapRuns.ReachableInv | risc_v/src/kmem.rs:77-191 | In every heap reachable from `init` by any interleaving of `kmalloc` and `kfree` of live pointers, positive chunks tile the heap exactly and at most one pair of adjacent free chunks exists |
| HeapRuns.ReachableHasOnePair | risc_v/src/kmem.rs:106-191 | In such a heap two adjacent free pairs are the same pair, and no three free chunks stand in a row |
| HeapRuns.CoalesceHalvesPairs | risc_v/src/kmem.rs:159-191 | One pass of `coalesce` leaves at most half as many adjacent free pairs as there were |
| HeapRuns.CoalesceMaximalRun | risc_v/src/kmem.rs:159-191 | A maximal run of k free chunks becomes ceil(k/2) free chunks over the same words, independently of its surroundings |
| HeapRuns.PassesMaximalRun | risc_v/src/kmem.rs:159-191 | n passes turn a maximal run of k into ceil(k/2^n) chunks; it is fully merged exactly when k <= 2^n |
| HeapRuns.PassesReachPairFree | risc_v/src/kmem.rs:159-191 | With fewer than 2^n adjacent free pairs, n passes leave none |
| HeapChunks.CoalesceKeepsTaken | risc_v/src/kmem.rs:159-191 | A pass keeps every taken chunk at its place and size, and the total of free words |
| HeapChunks.CoalesceKeepsTotal | risc_v/src/kmem.rs:159-191 | A pass keeps the total size |
| HeapRuns.AllocKeepsShape | risc_v/src/kmem.rs:115-137 | A request keeps the tiling and never adds an adjacent free pair |
| HeapRuns.ReleaseKeepsInv | risc_v/src/kmem.rs:144-156 | Freeing a live chunk and coalescing once keeps the invariant of reachable heaps |
| HeapRuns.ReleaseLeavesPairIff | risc_v/src/kmem.rs:144-191 | Freeing a chunk of a reachable heap leaves an adjacent free pair exactly when two or more free chunks stood directly beside it |
| HeapRuns.ReleaseBetweenFree | risc_v/src/kmem.rs:144-191 | From a heap without adjacent free chunks: exactly when both neighbours were free |
| HeapRuns.PairIsReached | risc_v/src/kmem.rs:106-191 | Three requests and three frees after `init` reach a heap with an adjacent free pair |
| HeapRuns.AllocThenRelease | risc_v/src/kmem.rs:106-191 | From a heap without adjacent free chunks, a successful `kmalloc` then `kfree` of its result restores the exact chunk list, split or not |
| HeapRuns.AllocTaken | risc_v/src/kmem.rs:106-141 | A successful request adds one live chunk where none was, of exactly the words needed, or one more when that is all that would be left over, and touches no other live chunk |
| HeapRuns.ReleaseTaken | risc_v/src/kmem.rs:144-191 | `kfree` removes exactly the freed chunk from the live ones |
| HeapRuns.TakenDisjoint | risc_v/src/kmem.rs:106-141 | Live chunks never overlap |
| HeapChunks.FirstFit | risc_v/src/kmem.rs:115-136 | The first chunk that is free and large enough, with none before it, or none at all |
| AllocList.WithSize | risc_v/src/kmem.rs:37-47 | `set_size` keeps the taken flag and stores the size |
| Common.AlignUp | risc_v/src/page.rs:24-27 | `align_val` gives the least multiple not below the value |
| KernelHeap.Need | risc_v/src/kmem.rs:108-108 | The words asked for hold the requested bytes behind the header, with less than a word to spare |
| HeapLayout.HeaderInMemory | risc_v/src/kmem.rs:17-48 | In memory, the header of each chunk is its size in bytes with bit 63 set when it is taken |
| KernelHeap.Heap.constructor | risc_v/src/kmem.rs:77-88 | After `init` memory holds one free header over the whole heap |
| KernelHeap.Heap.KMalloc | risc_v/src/kmem.rs:106-141 | Memory afterwards is the layout of the first-fit allocation; null exactly when no free chunk fits; no word of a live chunk, header or payload, has changed |
| KernelHeap.Heap.KFree | risc_v/src/kmem.rs:144-156 | Memory afterwards is the layout with that chunk freed and one pass made; exactly it stops being live; words of live chunks are unchanged; null does nothing |
| KernelHeap.Heap.CoalescePass | risc_v/src/kmem.rs:159-191 | The walk over headers in memory performs one pass, terminates, and keeps all live words |
| KernelHeap.Heap.ClientWrite | risc_v/src/kmem.rs:17-48 | A store into a live payload leaves every header, and so the chunk list, intact |
| PageTableRuns.TableDeterminesRuns | risc_v/src/page.rs:29-84 | A descriptor table denotes at most one set of runs, although only ends are marked |
| PageTableRuns.RunsDetermineTable | risc_v/src/page.rs:29-84 | A set of runs is denoted by at most one table |
| PageTableRuns.MarkAddsRun | risc_v/src/page.rs:145-158 | Marking a free stretch adds exactly one run, disjoint from all others |
| PageTableRuns.ClearRemovesRun | risc_v/src/page.rs:208-222 | Clearing a run's pages removes exactly that run, even when another touches it |
| PageTableRuns.MarkTakesPages | risc_v/src/page.rs:123-158 | An allocation uses up exactly as many of the usable free pages as it is long |
| PageTableRuns.PageIsFound | risc_v/src/page.rs:123-144 | A page can be had exactly when one of all but the last descriptor is free |
| PageTableRuns.FitsNext | risc_v/src/page.rs:114-166 | Whether a sequence of requests can be served by first fit, and the table it leaves, request by request |
| PageAllocator.Pages.constructor | risc_v/src/page.rs:92-110 | No runs; usable memory starts at the page boundary after the descriptors |
| PageAllocator.AllocStart | risc_v/src/page.rs:92-110 | Usable memory starts at the least page boundary at or after the descriptors |
| PageAllocator.Pages.Alloc | risc_v/src/page.rs:114-166 | Adds the lowest free run starting below `num_pages - pages` and marks exactly its descriptors, or returns null, changing nothing, when there is none |
| PageAllocator.Pages.Zalloc | risc_v/src/page.rs:172-192 | The same, with exactly the frames of the new run zeroed |
| PageAllocator.Pages.Dealloc | risc_v/src/page.rs:197-224 | Given the start of a run, removes exactly that run; none of the assertions can fire |
| PageAllocator.RunsInsideHeap | risc_v/src/page.rs:92-124 | Exactly when all runs that `alloc` can return lie inside the heap |
| PageAllocator.LargeHeapOverruns | risc_v/src/page.rs:92-124 | For every heap of more than 8192 pages, wherever it starts, a run that `alloc` can return does not |
| PageEntry.BranchDecodes | risc_v/src/page.rs:415-421 | A branch entry holds the table's page number from bit 10 on and no flag but V; the address is read back, and the entry is valid and not a leaf |
| PageEntry.LeafDecodes | risc_v/src/page.rs:394-435 | A leaf entry is valid, a leaf, and carries bits 55:12 of the physical address |
| PageEntry.LeafFlagBits | risc_v/src/page.rs:428-434 | Each of the ten flag bits of a leaf entry: V, A and D are set, all others, User and Global included, are as asked for |
| PageEntry.VpnJoins | risc_v/src/page.rs:381-388 | The three indices, nine bits each, joined are bits 38:12 of the address |
| PageEntry.VpnsArePage | risc_v/src/page.rs:381-388 | Two addresses have the same three indices exactly when they agree on bits 38:12 |
| PageTree.AddMidHolds | risc_v/src/page.rs:412-423 | Hooking a fresh zeroed frame into the root yields the tree with that empty level-1 table, all tables in separate frames |
| PageTree.AddLowHolds | risc_v/src/page.rs:412-423 | The same below a level-1 table |
| PageTree.SetLeafHolds | risc_v/src/page.rs:428-438 | Storing a leaf entry changes that leaf of the tree and nothing else |
| Sv39.VirtToPhys | risc_v/src/page.rs:478-518 | The walk returns the tree's translation with the page offset kept, or None; it never asks for `vpn[-1]` |
| Sv39.Map | risc_v/src/page.rs:374-439 | Succeeds exactly when there is a free page for each table lacking, which are then used up; exactly the leaf of that page is set; every allocation that is no table of this space keeps its place, length and contents |
| Sv39.MapAll | risc_v/src/page.rs:374-439 | The same for any sequence of calls: it succeeds exactly when the free pages cover the distinct tables lacking, and keeps all other allocations with their contents |
| Sv39.LeavesArePageMap | risc_v/src/page.rs:374-439 | For every sequence of calls, looking up an address in the resulting leaves is lookup in a finite map keyed by bits 38:12, the last mapping winning |
| Sv39.MapThenTranslate | risc_v/src/page.rs:374-518 | On a fresh root, any sequence of `map` calls followed by `virt_to_phys` is lookup in that finite map, and the word in memory has the permissions of the last call for its page; memory suffices exactly when there is one free page for the root, per distinct VPN[2] and per distinct VPN[2], VPN[1] |
| Sv39.Unmap | risc_v/src/page.rs:447-472 | Each level-1 and level-0 table frame is freed exactly once, and no other allocation, not even the root |
| Sv39.MapThenUnmap | risc_v/src/page.rs:412-472 | Root, any maps, `unmap` and freeing the root restore the descriptor table bit for bit and leave the contents of all allocations alone, also when memory runs out on the way; when it does is stated as before |
| ProcessPages.Process.Create | risc_v/src/process.rs:192-202 | Succeeds exactly when first fit finds room for 1, 35, 1 and the program's pages in turn; trap frame, stack, root table and optional program are new, distinct, zeroed runs; all allocations there were keep place, length and contents, even on failure |
| ProcessPages.Process.Load | risc_v/src/elf.rs:135-230 | Born exactly when the four allocations fit, complete exactly when there is also a page per table; then every stack address stands for that of the stack's pages, every page of every segment, unless mapped again later, for its place in the image, each with its permissions; all allocations there were keep their contents |
| ProcessPages.LoadMaps | risc_v/src/elf.rs:186-229 | The maps made by `load_proc`, in address arithmetic: page i of a segment goes to `program + off + 4096 i`, stack page i to stack page i |
| ProcessPages.ImageBrkPast | risc_v/src/elf.rs:209-216 | The break is past every page of every segment |
| ProcessPages.ImageBrkReached | risc_v/src/elf.rs:209-216 | And no further than one of them with a page per segment from it on |
| ProcessPages.MemSizeAdds | risc_v/src/elf.rs:142-150 | The image's size is the sum of its segments' |
| ProcessPages.Process.MapImage | risc_v/src/elf.rs:176-217 | The nested loops make the map calls of every segment in order and move the break past the highest page |
| ProcessPages.Process.Brk | risc_v/src/syscall.rs:279-305 | Succeeds exactly when the free pages cover the new pages and the tables lacking for them; then the pages from the old break on stand for the new, zeroed pages in order and all other addresses for what they did; all allocations but this process's tables, its own included, keep their contents either way |
| ProcessPages.BrkCoversIff | risc_v/src/syscall.rs:286-299 | The pages added reach every address up to the new break exactly when the part of a page before the old break and the part of a page in the size asked for fit in one page |
| ProcessPages.BrkAllMapped | risc_v/src/syscall.rs:286-299 | Under that condition every address from the old break up to the new one is mapped |
| ProcessPages.BrkMissesPage | risc_v/src/syscall.rs:286-299 | From 4095 to 4098 one page is added, and 4096 and 4097 are on none |
| ProcessPages.Process.Drop | risc_v/src/process.rs:388-413 | Every run the process holds is freed exactly once, and no other |
| ProcessPages.Lifetime | risc_v/src/process.rs:192-413 | A process with or without an image is born exactly when first fit finds room, is served all its maps and brk calls exactly when there are enough free pages, and, once born, its `Drop` leaves the descriptor table exactly as it was found; the contents of all other allocations are untouched throughout |
| ManyProcesses.System.Run | risc_v/src/process.rs:192-413 | Any interleaving of creation, loading, brk and `Drop` by any number of processes: each stays valid, what belongs to none keeps its contents, and, if no creation failed, the descriptor table is restored once all are gone |
| ManyProcesses.System.GrowOne | risc_v/src/syscall.rs:279-305 | One process's brk changes neither what the others hold nor any frame of theirs |
| ManyProcesses.System.Add | risc_v/src/process.rs:192-202 | A creation among others: fails exactly when first fit finds no room, and leaves everybody valid either way |
| ManyProcesses.System.Remove | risc_v/src/process.rs:388-413 | A drop among others removes that process's runs only |
| ManyProcesses.HoldsKept | risc_v/src/process.rs:388-413 | Whoever holds only kept allocations holds them still, page tables included |
| Cpu.CopiesAll | risc_v/src/cpu.rs:328-332 | All bytes are copied exactly when there are fewer than 8 or a multiple of 8; otherwise the greatest multiple of 8 |
| Cpu.Memcpy | risc_v/src/cpu.rs:320-333 | What the destination holds afterwards, for every length |
| Disk.Device.SycRead | risc_v/src/fs.rs:962-1000 | The buffer receives exactly `disk[offset..offset+size]`, through requests that are whole sectors |
| Disk.Device.SycWrite | risc_v/src/fs.rs:1002-1043 | The disk changes in that range only, by the bytes `memcpy` copies, through requests that are whole sectors |
| Disk.OverlayWithin | risc_v/src/fs.rs:1013-1042 | Modifying part of a slice and writing the slice back modifies that part of the disk only |
| Disk.EndRoundsIff | risc_v/src/fs.rs:962-970 | The rounded end computed in 32 bits is right exactly when `offset + size + 511` is below 2^32 |
| Disk.LastZoneOverflows | risc_v/src/fs.rs:962-970 | Of all zone numbers below 2^22 exactly the last overflows, and its block seems to end at 0 |
| MinixFile.ReadReturns | risc_v/src/fs.rs:264-514 | `read` returns min(min(size, inode.size), max(0, 1024 N - offset)), N the number of non-zero leaf zones |
| MinixFile.ReadExactIff | risc_v/src/fs.rs:264-514 | The buffer begins with that slice of the concatenated leaf blocks, whatever it held before, exactly when every per-zone piece has a length `memcpy` copies in full |
| MinixFile.ReadDelivers | risc_v/src/fs.rs:264-514 | It does whenever offset and limit are multiples of 8 |
| MinixFile.LittleEndianReads | risc_v/src/fs.rs:357-361 | Four bytes, least significant first, are read as the number they store |
| MinixHoles.PointerBlockReads | risc_v/src/fs.rs:357-389 | A pointer block that stores 256 zone numbers has exactly them as its slots, and them without the zeros as its leaves |
| MinixHoles.SlotOfBlock | risc_v/src/fs.rs:300-514 | Which zone a file block has: the first 7 in the inode, then 256, 65536 and 16777216 behind one, two and three pointers |
| MinixHoles.ReadEndIff | risc_v/src/fs.rs:264-284 | For a file with as many zones as blocks, `read` returns the file's own count exactly when the request starts at 0, asks for nothing, ends within the file, starts past its last block, or the last block is full |
| MinixHoles.ReadsPastEnd | risc_v/src/fs.rs:264-284 | 10 bytes at offset 8 of a 10-byte file: `read` reports 10 where the file has 2 |
| MinixHoles.ZonesAreSlots | risc_v/src/fs.rs:300-514 | What `read` goes through are the file's leaf slots, at all levels, without the zeros |
| MinixHoles.BlockInPlaceIff | risc_v/src/fs.rs:300-514 | With distinct zones, the k-th block gone through is block k of the file exactly when no block up to k is a hole |
| MinixHoles.SparseFile | risc_v/src/fs.rs:300-342 | In a file whose only zone is its second, block 1 is delivered as block 0 |
| MinixHoles.ReadGivesFile | risc_v/src/fs.rs:264-514 | Of a file without holes, a request that ends right and is copied in full gets exactly the file's own bytes |
| MinixRead.Reader.Zone | risc_v/src/fs.rs:300-342 | One visit of a leaf zone updates counters and buffer as specified |
| MinixRead.Reader.ScanLeaves | risc_v/src/fs.rs:358-389 | The innermost loop visits the leaves under one pointer block in order, stopping when the request is satisfied |
| MinixRead.Reader.ScanDouble | risc_v/src/fs.rs:402-443 | Two nested loops over two buffers visit all leaves under a doubly indirect zone in order |
| MinixRead.Reader.ScanTriple | risc_v/src/fs.rs:457-507 | Three nested loops over three buffers do so for a triply indirect zone |
| MinixRead.Read | risc_v/src/fs.rs:264-514 | The whole call refines the flat description: count for every file, size and offset, and the buffer's contents |
| MinixWrite.Write | risc_v/src/fs.rs:516-601 | A block-aligned write of at most one block to a direct or singly indirect zone puts the bytes at that zone and nowhere else |
| MinixWrite.WriteThenRead | risc_v/src/fs.rs:264-601 | Reading the range back gives the bytes written; the zone list and every other file block are unchanged |
| MinixWrite.SameFile | risc_v/src/fs.rs:264-514 | A change to a block that is no pointer block leaves the file's list of zones as it is |
| PathCache.CacheIsWalk | risc_v/src/fs.rs:139-180 | For an acyclic tree whose directories begin with `.` and `..`, and with ASCII names of directories on the way to files, a path is cached exactly when walking its components from inode 1 reaches a file, each found behind the first two entries and in the first block of its directory; then with that file's inode |
| PathCache.CacheAgreesIff | risc_v/src/fs.rs:139-180 | For all names: on all paths without `.` and `..` the cache agrees with walking exactly when no reachable directory has an entry past its first block with a file at or below it, nor a subdirectory with a name that is not ASCII and a file below it |
| PathCache.BadIsMissed | risc_v/src/fs.rs:154-172 | Where a file is hidden or its way garbled, some file's path is missing from the cache, although garbled keys may coincide with paths |
| PathCache.OneBlockHidesNothing | risc_v/src/fs.rs:139-180 | So it does whenever directories fit one block |
| PathCache.LastFileIsMissed | risc_v/src/fs.rs:143-147 | In a root of 17 entries the last file is reached by walking and is not in the cache |
| PathCache.GarbledIsMissed | risc_v/src/fs.rs:154-157 | A file in a directory named with a character from 128 to 255 is reached by walking and is not in the cache |
| PathCache.CachedSound | risc_v/src/fs.rs:139-180 | Every cached path is the key of a file reached by walking along such entries, for all names |
| PathCache.CachedComplete | risc_v/src/fs.rs:139-180 | Every file reached by walking along such entries and ASCII directories is cached under its path |
| PathCache.RecodeIsCopy | risc_v/src/fs.rs:154-157 | The copied path equals the path exactly for ASCII, and is longer otherwise |
| PathCache.RecodeIsUtf8 | risc_v/src/fs.rs:154-157 | What the copy spells in bytes is the path that was copied |
| PathCache.IsDirIs | risc_v/src/fs.rs:170-170 | A directory is an inode with bit 14 of its mode set |
| FsCache.GetInode | risc_v/src/fs.rs:87-133 | Returns the n-th 64-byte record of the inode table when the magic number is right, None otherwise |
| FsCache.InodeReads | risc_v/src/fs.rs:50-62 | The 64 bytes that store an inode, field after field, are read as that inode |
| FsCache.InodeAtReads | risc_v/src/fs.rs:105-126 | Inode n is the one stored in the n-th record behind boot block, superblock and bitmaps |
| FsCache.SuperReads | risc_v/src/fs.rs:28-43 | A superblock stored field after field is read with its map sizes and magic number |
| FsCache.ReadDirectory | risc_v/src/fs.rs:140-144 | The entries decoded are the first sixteen of all that the directory holds on disk, although `memcpy` may omit bytes of a last partial record |
| FsCache.EntriesRead | risc_v/src/fs.rs:69-73 | A directory that stores entries one after the other, names padded with zeros, is read as them |
| FsCache.DirectoryFits | risc_v/src/fs.rs:141-143 | Exactly which directory sizes fit the buffer asked for |
| FsCache.Cache.CacheAt | risc_v/src/fs.rs:139-180 | Inserts exactly the paths of the files below a directory of the disk |
| FsCache.Cache.Refresh | risc_v/src/fs.rs:183-210 | The cache afterwards is that of the whole tree |
| FsCache.RefreshThenOpen | risc_v/src/fs.rs:183-262 | `open` finds exactly what the cache of the disk's tree holds; with no garbled directory, a path exactly when a walk finds it along entries that `cache_at` sees, with that inode; with nothing hidden either, exactly when the walk does |
| Virtqueue.SubmitKeepsInv | risc_v/src/block.rs:257-351 | If request k is acknowledged before request k+42 is submitted, a submission leaves every open chain, ring slot and heap request intact |
| Virtqueue.WindowIsTight | risc_v/src/block.rs:257-272 | 42 is tight: in every state of the protocol, a submission leaves all open chains intact exactly when the request 42 before it has been acknowledged |
| Virtqueue.DeviceSeesRequest | risc_v/src/block.rs:307-351 | In the slot of an open request the device finds three descriptors: header, 16 bytes, to be read; the buffer, to be written exactly for a read; status, one byte, to be written; and in the request its direction, sector, buffer and watcher |
| BlockDriver.SubmitChain | risc_v/src/block.rs:305-351 | A submission leaves that chain from the next slot on, its head in the ring, the available index one further modulo 2^16, and the status unset |
| Virtqueue.CompleteKeepsInv | risc_v/src/block.rs:375-385 | A completion, in any order, overwrites no used element that is still to be read |
| Virtqueue.AckIsOldestCompletion | risc_v/src/block.rs:380-394 | The element being acknowledged leads back to its own request, watcher and status |
| Virtqueue.AckKeepsInv | risc_v/src/block.rs:380-399 | Acknowledging frees that request only; only open requests stay allocated |
| Virtqueue.CaughtUp | risc_v/src/block.rs:380-382 | `ack_used_idx == used.idx` exactly when nothing is left, across 16-bit wrap |
| Virtqueue.RunIsSafe | risc_v/src/block.rs:257-401 | Every run of submissions, completions and acknowledgements keeps all of this; its acknowledgements are the completions in order, and what is allocated are exactly the open requests |
| Virtqueue.HeapIsOpenRequests | risc_v/src/block.rs:383-398 | An address is allocated exactly when an open request lives there; as many are allocated as submitted and not acknowledged, none when all are |
| Virtqueue.AcknowledgedExactlyOnce | risc_v/src/block.rs:387-398 | A request no longer open was reported exactly once, after completion, with its own status; it is allocated no more, and exactly as many requests have been freed as were reported |
| Virtqueue.OpenIsNotFreed | risc_v/src/block.rs:383-398 | An open request is still allocated and has not been reported |
| BlockDriver.BlockDevice.FillNextDescriptor | risc_v/src/block.rs:257-272 | The in-place update amounts to one push |
| Virtqueue.PushFills | risc_v/src/block.rs:257-272 | A push fills the next slot, cyclically, linked to the one behind it when asked for, and no other |
| BlockDriver.BlockDevice.Enqueue | risc_v/src/block.rs:305-351 | The in-place updates amount to one submission |
| BlockDriver.BlockDevice.Pending | risc_v/src/block.rs:375-401 | Terminates with everything acknowledged, in the order of completion, and exactly the acknowledged requests freed |
| BlockDriver.BlockOp | risc_v/src/block.rs:281-362 | Accepted exactly when the device is there, is not to be written while read-only, and the size is whole sectors; which error otherwise; on success one submission with its chain and request, otherwise no change |
| DriverHeap.Service.Request | risc_v/src/block.rs:281-351 | Rejected exactly by the checks, out of memory exactly when no free chunk is large enough; otherwise the request's memory is fresh from the heap and large enough; no word of another live allocation changes |
| DriverHeap.RequestInside | risc_v/src/block.rs:305-343 | The header and status byte that the descriptors name lie inside the request's allocation |
| DriverHeap.Service.Reap | risc_v/src/block.rs:375-401 | Every `kfree` of the driver is of a live allocation, once per request: the live allocations afterwards are those before without the acknowledged requests, one fewer for each, and no word of theirs has changed |
| Processes.ProcessList.Schedule | risc_v/src/sched.rs:7-47 | Terminates when some process runs or sleeps; picks the first in cyclic order after the front that is Running, or Sleeping and due, when looked at; the list is rotated |
| Processes.PicksIsFirstDue | risc_v/src/sched.rs:22-37 | Every process looked at before the pick was neither Running nor Sleeping and due in its turn |
| Processes.DueIsReached | risc_v/src/sched.rs:19-39 | A process at position k > 0 that is running or due when the call starts is reached in turn k at the latest |
| Processes.SlotIs | risc_v/src/sched.rs:20-20 | Turn k looks at entry k, cyclically |
| Processes.EndsIff | risc_v/src/sched.rs:19-39 | Under a clock that goes on, the loop ends exactly when some process is Running or Sleeping |
| Processes.ChosenIsRotation | risc_v/src/sched.rs:19-39 | The result is a rotation, entry by entry, in which only the process picked changes; no sleeper is woken early |
| Processes.RunsWithin | risc_v/src/sched.rs:16-40 | Without deletions, a process that stays runnable at position k > 0 runs within k calls, whatever is appended |
| Processes.DeletionSkipsSuccessor | risc_v/src/process.rs:122-140 | After the front of any list is deleted, its runnable successor is picked exactly when no other process is runnable when its turn comes |
| Processes.PidsDistinctIff | risc_v/src/elf.rs:153-157 | The PIDs of any sequence of creations are pairwise distinct exactly when no kernel process is created right after a load |
| Processes.CreationsKeepUnique | risc_v/src/process.rs:191-206 | Added to a list of unique PIDs, creations leave it so exactly under that condition |
| Processes.ProcessList.CreateAll | risc_v/src/process.rs:174-245 | The creations, in code, hand out those PIDs and leave the older entries alone |
| Processes.ProcessList.Mark | risc_v/src/process.rs:49-94 | The first process with the PID, and only it, changes state; whether there was one |
| Processes.SetStateIs | risc_v/src/process.rs:49-94 | Exactly the first process with the PID changes, in its state only |
| Processes.ProcessList.SetSleeping | risc_v/src/process.rs:97-118 | The same for sleeping, with the wake-up time |
| Processes.PutToSleepIs | risc_v/src/process.rs:97-118 | Exactly the first process with the PID sleeps, until the time given |
| Processes.ProcessList.DeleteProcess | risc_v/src/process.rs:122-140 | The first process with the PID leaves the list |
| Processes.WithoutIs | risc_v/src/process.rs:122-140 | Exactly the first process with the PID is gone; a PID nobody has changes nothing |
| Processes.ProcessList.AddKernelProcess | risc_v/src/process.rs:174-245 | Appends a running process with the next PID |
| BlockWait.RunIsGood | risc_v/src/syscall.rs:256-278 | In every state of every run, rejected calls included, the waiting processes are exactly the watchers of open requests, each of exactly one, and the callers that were rejected |
| BlockWait.PendingFindsProcess | risc_v/src/block.rs:387-397 | The watcher of the request being acknowledged is in the list and Waiting, so `get_by_pid` is never null |
| BlockWait.WaitsForExactlyOne | risc_v/src/syscall.rs:256-278 | A waiting process whose calls were accepted waits for exactly one unacknowledged request |
| BlockWait.CallMatchesIffAccepted | risc_v/src/syscall.rs:256-278 | After a block call, waits and requests match exactly when the device is there, is not to be written while read-only, and the size is a multiple of 512 |
| BlockWait.RejectedRead | risc_v/src/block.rs:297-299 | A read of 100 bytes leaves its caller waiting with nothing asked for |
| BlockWait.RejectedWaitsForever | risc_v/src/syscall.rs:256-278 | A rejected caller is in the list and Waiting in every later state of the run |
| BlockWait.NobodyStuckIff | risc_v/src/syscall.rs:256-278 | No process waits without an open request that names it exactly as long as no call has been rejected |
| BlockWait.WokenWithOwnStatus | risc_v/src/block.rs:387-397 | An acknowledgement makes the request's own watcher running with that request's status in A0, and changes no other process |
| KernelSteps.Machine.constructor | risc_v/src/process.rs:339-361 | The state after `init` is an initial state of the protocol |
| KernelSteps.Machine.BlockArm | risc_v/src/syscall.rs:256-278 | `set_waiting` then `block_op`: afterwards waits and requests match exactly when the checks of `block_op` pass |
| KernelSteps.Machine.BlockCall | risc_v/src/syscall.rs:256-278 | The arm's code, accepted or not, then `schedule`, takes exactly the protocol's block-call step |
| KernelSteps.Machine.ExitCall | risc_v/src/syscall.rs:32-35 | The same for exit |
| KernelSteps.Machine.SleepCall | risc_v/src/syscall.rs:47-50 | The same for sleep |
| KernelSteps.Machine.HandleInterrupt | risc_v/src/block.rs:375-413 | Every completion is acknowledged; exactly the watchers of those completions, each found in the list, are made running with their own request's status in A0 |

## Left out

- `create_new_file`, `delete_inode_and_direntry`, `find_free_inode` and the bitmap offsets: their inode arithmetic disagrees from one function to the next and there is no invariant to state.
- `write` across blocks, at unaligned offsets, or into doubly and triply indirect zones: the whole buffer is sent to each zone visited, and one pointer is taken from the wrong buffer.
- `map` with 2 MiB and 1 GiB pages: nothing in the kernel uses them.
- ELF parsing and the copying of segments: which pages a loaded process owns and which maps `load_proc` makes is modelled, in `ProcessPages`; the image's bytes are not.
- Device discovery and set-up, the interrupt controller, UART, GPU, input and entropy devices, console, assembly and linker script.
- `kzmalloc` and the global allocator around it, printing, `test.rs`: easy members.
- Memory ordering, unaligned access and preemption inside a trap: steps are atomic.
- Sv39.Map: when no page can be had for a table it stops and reports it; the original goes on with address 0.
- Sv39.VirtToPhys: tables with 2 MiB or 1 GiB leaves are excluded, since `map` is modelled at level 0, the only level used.
- ProcessPages.Process.Create: stops at the first null allocation, which the original does not look at; what it had taken by then is not given back.
- ProcessPages.Process.Brk: stops when memory runs out, for the same reason.
- DriverHeap.Service.Request: stops when `kmalloc` returns null; the original writes through the null pointer.
- Disk.Device.SycRead: the device always succeeds; the status a failing device would return is not modelled.
- Disk.Device.SycWrite: the same.
- MinixRead.Read: every zone the file refers to lies on the disk; what a device does with a zone beyond its end is not modelled.
- Processes.ProcessList.AddKernelProcess: PIDs are unbounded; the 16-bit counter's wrap is not modelled, nor the return of 0 while somebody else holds the list, since list updates are atomic steps.
- BlockWait.RunIsGood: system calls that spawn helper processes to wait on a caller's behalf are not part of this model, nor is what a running process does to its own registers.
- FsCache.ReadDirectory: directory sizes up to one block that leave remainder 1 by 8 are excluded, since the buffer asked for is then smaller than the bytes `read` counts (`DirectoryFits`).
- MinixWrite.Write: states only the inputs for which `write` does what is meant, as above.
