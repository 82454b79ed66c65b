# A verified model of a RISC-V teaching operating system

This project models the five parts of the system that carry the most state and arithmetic, and
proves what they promise, in Dafny 4.11. `dafny verify dfyconfig.toml` checks all of it.

**Minix 3 files** (`BlockStore`, `ZoneMap`, `ZoneTree`, `ZoneGrowth`, `FileBytes`, `MinixFile`,
`FileRuns`). The zone tree, the four-index cursor and the descriptor's position fields are a class
whose methods follow src/minix3.c branch by branch. The reference is a flat list of zones and a flat
sequence of bytes. `while(1)` on an exhausted disk is an outcome, `Hangs`, and every contract says
exactly when it happens.

**Kernel heap** (`HeapLists`, `HeapShape`, `HeapSteps`, `KernelHeap`, `HeapRuns`). The descriptor
table is an array, the lists are threaded through it by index. The invariant: the three lists are
disjoint and together hold every descriptor, used and free blocks tile [base, top), and the free
list is sorted with no two blocks touching.

**Hart start and stop** (`HartProtocol`). Every shared-memory access of hart_start, hart_stop and
hart_handle_msip is one atomic step; any number of callers interleave in any order. Histories of
accepted, acknowledged and launched starts state that none is lost or torn.

**Page pool, Sv39 tables and user copies** (`PageBits`, `PageCells`, `PageAllocator`, `PoolRuns`,
`Bits`, `ByteBits`, `PageTable`, `EntryBits`, `PageTree`, `TableGrowth`, `MapMeaning`,
`TableRelease`, `Mmu`, `TableLifetime`, `UserCopy`, `UserMappings`), after sections 4.3.2 and 4.4 of
the RISC-V Privileged Architecture, version 20211203. Entries are numbers split by quotient and
remainder; `EntryBits` proves the shifts and masks of the code equal to that. Table pages come from
the packed two-bit allocator.

**PPM pictures** (`PpmText`, `Rectangles`, `Drawing`). The printer and parser over a byte stream,
and the one-loop walk over a rectangle of the framebuffer.

`Arithmetic` and `Options` hold what several of these share.

Where the code does not do what one would expect, the model follows the code, the exact condition is
proved, and a failing input is given, here in parentheses: `Write` and its `KeepsPlace`
(`LosePlace`, `LosePlaceApart`, `WriteAfterFill`, `ReadAfterFill`), `LandsWhateverIff`
(`WriteBeforeNew`), `SizesPlain` (`SizeRunsAway`), `Read` and `Lseek` (`TenBytes`, `SeekOutside`),
`EnumeratesAll` (`MissedZone`), `WholeChunk` (`ShortChunk`), `FreeingAFreePage` (`FreedElsewhere`),
`BookHoldsAllPages` (`BookTooSmall`), `PagesLostIff` (`LeakOne`), `RoundTripIff` (`EmptyPicture`).
Two statements in the source disagree with it: write_integer's buffer holds four digits, not three
(`FitsBuffer`), and page_nalloc's promise of n contiguous pages (src/include/page.h) holds exactly
under the condition of `WholeChunk`.

Assumptions, each taken from how the code is called: the block device always succeeds; zone bit i is
zone first_data_zone + i and bit 0 is taken; files are dense, as open and write make them; heap
requests are at least one byte and no size wraps; no leaf above the target level lies on mmu_map's
walk; user pages hold no page tables and kernel buffers are not user pages.

## Model

| member | source | states |
|---|---|---|
| `BlockStore.DecodeEncode` | src/minix3.c:728-732 | A pointer zone written as 1024 bytes and read back gives the same 256 zone numbers. |
| `BlockStore.EncodedBytes` | src/minix3.c:728-732 | A stored zone number is four bytes, the lowest first. |
| `BlockStore.DecodedBytes` | src/minix3.c:501-517 | And a loaded one is the sum of its four bytes in that order. |
| `BlockStore.WrittenByte` | src/block.c:260-278 | A device write changes exactly the bytes of its address range, also across zones. |
| `BlockStore.WrittenReadsBack` | src/block.c:241-278 | Reading the range back delivers what was written. |
| `BlockStore.UntouchedZone` | src/block.c:260-278 | A zone outside the range keeps its contents. |
| `ZoneMap.TakenIs` | src/minix3.c:24-38 | Element i of the bitmap is binary digit i % 8 of byte i / 8. |
| `ZoneMap.SetTakesOne` | src/minix3.c:24-38 | Setting a bit of the byte-packed bitmap takes that element and changes no other one. |
| `ZoneMap.SetMarks` | src/minix3.c:62-79 | Setting bit i keeps bitmap and set of used zones in step under "bit i is zone first_data_zone + i". |
| `ZoneMap.FreeCountZero` | src/minix3.c:62-79 | The count of free zones is 0 exactly when every zone of the range is used. |
| `ZoneMap.TakingUsesOne` | src/minix3.c:62-79 | Taking a free zone of the range lowers that count by exactly one. |
| `ZoneGrowth.GrowTree` | src/minix3.c:702-934 | Filling position n of a dense tree gives a dense tree of n+1 positions whose flat zone list is the old one plus the new zone. |
| `ZoneGrowth.GrowOwned` | src/minix3.c:680-934 | After growth all data, single, double and leaf zones of the file are still pairwise distinct and marked used. |
| `ZoneGrowth.GrowDirect` | src/minix3.c:702-709 | Storing into the next direct slot is such a growth. |
| `ZoneGrowth.GrowFirstSingle` | src/minix3.c:715-746 | So is the first single-indirect zone with its new pointer zone. |
| `ZoneGrowth.GrowSingle` | src/minix3.c:758-784 | So is the next pointer of the single-indirect zone. |
| `ZoneGrowth.GrowFirstDouble` | src/minix3.c:791-834 | So is the first double-indirect zone with its first leaf. |
| `ZoneGrowth.GrowNewLeaf` | src/minix3.c:836-886 | So is a new leaf under the double-indirect zone. |
| `ZoneGrowth.GrowLeaf` | src/minix3.c:889-933 | So is the next pointer of the current leaf. |
| `FileBytes.OverwritesCompose` | src/minix3.c:1813-1993 | Two overwrites, the second where the first ended, are one overwrite of both buffers. |
| `FileBytes.LandedWrites` | src/minix3.c:1846-1857 | A device write to the addresses of bytes at.. of a file with distinct zones changes exactly those bytes of the flat file. |
| `FileBytes.LandedReads` | src/minix3.c:1678-1683 | A device read from those addresses delivers exactly those bytes. |
| `FileBytes.LandsIff` | src/minix3.c:1819-1846 | Bytes from offset off of zone p on, off possibly negative, have the device addresses the file gives them if and only if off >= 0 or the zone before p in the file is the one before it on the disk. |
| `FileBytes.ExtendContents` | src/minix3.c:680-934 | Adding a zone leaves every byte the file had. |
| `FileBytes.PointersKeepTree` | src/minix3.c:1813-1993 | Whatever is written to the disk, the tree, its flat list and every node stay if the file's pointer zones keep their rows. |
| `FileBytes.FlatDistinct` | src/minix3.c:680-934 | The flat zone list of a well-formed file has no repetition. |
| `FileBytes.NeededSplit` | src/minix3.c:680-934 | The zones needed to grow from n to k add up over any stop in between. |
| `ZoneTree.SlotIs` | src/minix3.c:481-592 | Position p of a file is inode zone p below 7, word p - 7 of zone 7 below 263, else word (p - 263) % 256 of the zone named by word (p - 263) / 256 of zone 8; and the cursor of each. |
| `MinixFile.CursorRoundTrip` | src/minix3.c:481-592 | The four-index cursor and the position in tree order determine each other. |
| `MinixFile.DenseSlots` | src/minix3.c:481-592 | In a dense file exactly the first n positions are occupied and a walk from any of them can see all. |
| `MinixFile.WroteCompose` | src/minix3.c:1792-1995 | Consecutive writes compose, including what they leave alone on the disk. |
| `MinixFile.LandsWhateverIff` | src/minix3.c:1819-1857 | A first part of a write lands at its place in the file and leaves every foreign zone alone, whatever the bytes are, if and only if the offset is not negative or the zone before is the one before it on the disk. |
| `MinixFile.PutKeepsTree` | src/minix3.c:1846-1857 | A device write from an offset of a data zone keeps tree and flat list unless it starts before the zone and the zone there is one of the file's pointer zones. |
| `MinixFile.SizesPlain` | src/minix3.c:1853-1856 | The size after a write, bumped part by part in 32 bits, is the furthest position reached as long as nothing wraps. |
| `MinixFile.OpenFile.NextDirect` | src/minix3.c:488-499 | Stops at the next occupied direct slot, or moves on; every slot skipped is a hole. |
| `MinixFile.OpenFile.NextSingle` | src/minix3.c:501-539 | The same for the single-indirect range. |
| `MinixFile.OpenFile.NextInLeaf` | src/minix3.c:557-574 | The same for one leaf of the double-indirect range. |
| `MinixFile.OpenFile.NextDouble` | src/minix3.c:541-591 | The same for the whole double-indirect range. |
| `MinixFile.OpenFile.GetNextZone` | src/minix3.c:481-592 | Stops exactly at the next occupied position below the horizon, with the block offset of that zone; false only if there is none. |
| `MinixFile.OpenFile.GetNextZoneWrapper` | src/minix3.c:661-678 | The same, and a failed walk leaves cursor and block offset exactly as before. |
| `MinixFile.OpenFile.Enumerate` | src/minix3.c:661-678 | Repeated calls yield exactly the occupied positions behind the cursor up to the horizon, in order, each once. |
| `FileRuns.EnumeratesAll` | src/minix3.c:501-541 | That is every occupied zone of the tree if and only if there is a single-indirect zone, the cursor is already behind it, or the double-indirect part is empty. |
| `FileRuns.MissedZone` | src/minix3.c:501-541 | A concrete file with no single-indirect zone whose double-indirect zone the walk never finds. |
| `MinixFile.OpenFile.FindNextDatazone` | src/minix3.c:62-79 | Takes the first free zone and only it; finds none (the code spins) exactly when none is free. |
| `MinixFile.OpenFile.ExtendDirect` | src/minix3.c:702-709 | Grows the file by the given zone with the cursor on it. |
| `MinixFile.OpenFile.StartSingle` | src/minix3.c:715-746 | The same with a new single-indirect zone; spins exactly when no zone is left for it. |
| `MinixFile.OpenFile.ExtendSingle` | src/minix3.c:758-784 | The same inside the single-indirect zone. |
| `MinixFile.OpenFile.StartDouble` | src/minix3.c:791-834 | The same with two new pointer zones; spins exactly when fewer than two are left. |
| `MinixFile.OpenFile.StartLeaf` | src/minix3.c:836-886 | The same with one new leaf. |
| `MinixFile.OpenFile.ExtendLeaf` | src/minix3.c:889-933 | The same inside a leaf. |
| `MinixFile.OpenFile.ExtendDouble` | src/minix3.c:788-934 | The three double-indirect cases together, with the exact number of zones each takes. |
| `MinixFile.OpenFile.AllocNewZone` | src/minix3.c:680-934 | On a dense file below 65799 zones the flat zone list becomes old list plus the new zone, the lowest free one of the disk; old positions unchanged, cursor and block offset on it, all zones distinct, foreign zones untouched; spins exactly when the disk has fewer free zones than this growth needs. |
| `MinixFile.OpenFile.Advance` | src/minix3.c:1866-1880 | To the next zone, growing the file exactly when the current zone is the last. |
| `MinixFile.OpenFile.WriteHead` | src/minix3.c:1813-1885 | From any offset lseek, read and write leave, also one before the zone: stores the rest of the current zone at that device address; the in-block offset is reset only if a zone was allocated. |
| `MinixFile.OpenFile.WriteZone` | src/minix3.c:1905-1953 | One whole zone of the write loop. |
| `MinixFile.OpenFile.WriteZones` | src/minix3.c:1891-1954 | All whole zones of the buffer, exactly those, at the right place. |
| `MinixFile.OpenFile.WriteTail` | src/minix3.c:1960-1993 | The rest of the buffer at the start of the next zone. |
| `MinixFile.OpenFile.WriteRest` | src/minix3.c:1891-1993 | Both of these together. |
| `MinixFile.OpenFile.Write` | src/minix3.c:1792-1995 | From any offset lseek, read and write leave: the bytes up to the end of the zone go to the device address of zone plus offset, the rest to the file from the next zone on; if the former lie in place, exactly the given bytes of the file are overwritten and nothing foreign changes. The file grows to cover them, it spins exactly when zones run out, and the position it leaves is right if and only if KeepsPlace (a condition on offset, length and the next zone) held before. |
| `FileRuns.WriteAfterFill` | src/minix3.c:1868-1879 | After a write that exactly fills a zone that is not the last, the next write lands a whole zone too far. |
| `FileRuns.Overwrite` | src/minix3.c:1866-1880 | Rewinding any file of one full zone and overwriting that zone leaves the in-block offset at 1024, a position that is not byte 1024. |
| `FileRuns.ReadAfterFill` | src/minix3.c:1668-1784 | The next read after such a write delivers the bytes from one zone too far on, although total_read names the right ones. |
| `FileRuns.LosePlace` | src/minix3.c:1792-1995 | The same from the start: on any disk with two free zones, create, append 1024 bytes, lseek to 0, write 1024 bytes. |
| `FileRuns.LosePlaceApart` | src/minix3.c:1868-1885 | The second way: on any disk with two free zones and no two free neighbours, create, append 1024 bytes, lseek to 0, write 1025; file_pointer then is not the address of byte 1025. |
| `FileRuns.WriteBeforeStart` | src/minix3.c:1819-1857 | lseek to -1 and a write of one byte, on any file whose first zone has a foreign zone before it on the disk: the last byte of that zone is overwritten, no byte of the file changes, and write returns 1. |
| `FileRuns.WriteBeforeNew` | src/minix3.c:1792-1995 | The same from the start: create, append anything, lseek to -1, write one byte; the zone hit was in use before the file was created. |
| `FileRuns.SizeRunsAway` | src/minix3.c:1848-1856 | lseek to -2 and a write of one byte: total_read becomes the 64-bit -1 and the size of the file 4294967295. |
| `FileRuns.PlaceLost` | src/minix3.c:1868-1885 | Of the writes that reach the next zone by fewer than 1024 bytes, exactly those keep the place that reach into it by at least one and find it next on the disk. |
| `MinixFile.OpenFile.Refetch` | src/minix3.c:1712-1747 | The block address read and lseek recompute from the cursor is the one the walk had set. |
| `MinixFile.OpenFile.ReadSome` | src/minix3.c:1668-1784 | One round of read takes the next bytes off what is ahead (the rest of the zone at the device address, then the file); it spins exactly at the end of the last zone and overruns its buffer exactly for more than 1024 bytes from an offset before the zone. |
| `MinixFile.OpenFile.AheadInPlace` | src/minix3.c:1678-1683 | What is ahead is the file from the position on, if the device address agrees with the offset and the bytes lie in place. |
| `MinixFile.OpenFile.ReadLoop` | src/minix3.c:1665-1785 | All rounds together, for any number of bytes and any offset. |
| `MinixFile.OpenFile.Read` | src/minix3.c:1623-1790 | From any offset lseek, read and write leave: delivers exactly the next bytes of what is ahead, as many as the wrapping arithmetic of size and total_read says; spins exactly when they reach the end of the last zone. From byte t of the file it delivers the file's bytes from t up to its size and moves every position field with them; it then spins also when t is behind the size or t plus count wraps. |
| `MinixFile.OpenFile.Rewind` | src/minix3.c:2030-2039 | All position fields say byte 0. |
| `MinixFile.OpenFile.Forward` | src/minix3.c:2048-2113 | As many zones forward as asked for, or to the last one. |
| `MinixFile.OpenFile.SeekTo` | src/minix3.c:2030-2121 | The part of lseek that all three whence values share. |
| `MinixFile.WhenceIs` | src/include/minix3.h:14-16 | The three whence values are 0, 1 and 2. |
| `MinixFile.OpenFile.Lseek` | src/minix3.c:1997-2123 | For SEEK_SET, SEEK_CUR and SEEK_END and any target: which zone, offset and counters result, with their 64-bit wrapping; the position is right if and only if the target is not negative or a multiple of 1024, and is then the target or the same offset in the last zone. Any other whence keeps zone and counter and clears the offset, which is right if and only if it was on a boundary. |
| `FileRuns.SeekLikeRead` | src/minix3.c:1997-2123 | lseek to any byte of the file and reading that many bytes from the start leave the same cursor, offsets and counters. |
| `FileRuns.SeekFromHere` | src/minix3.c:2020-2028 | At byte t, lseek by d with whence 1 leaves exactly the position that lseek to t + d with whence 0 leaves: that byte, or the same offset in the last zone. |
| `FileRuns.SeekFromEnd` | src/minix3.c:2020-2028 | From any position, lseek by d with whence 2 leaves the position that lseek to size + d with whence 0 leaves. |
| `FileRuns.SeekOutside` | src/minix3.c:1657-1660 | On any appended file: after lseek behind the size, still in the last zone, every read spins; lseek less than a zone before the start is not refused and leaves an offset beyond every zone. |
| `FileRuns.TenBytes` | src/minix3.c:1997-2123 | The same for a new file of 10 bytes with targets 500 and -1 and a read of 0 bytes. |
| `MinixFile.OpenFile.OpenNew` | src/minix3.c:1339-1357 | A new file has one zone and no bytes; spins exactly when no zone is free. |
| `MinixFile.OpenFile.Append` | src/minix3.c:1792-1995 | A write at the end keeps zones = size/1024 + 1 and the cursor at the end, and appends exactly the buffer. |
| `FileRuns.AppendAll` | src/minix3.c:1792-1995 | The same for any sequence of buffers; spins exactly when the disk cannot hold the whole file. |
| `FileRuns.RoundTrip` | src/minix3.c:1623-2123 | From a new file, any appends, lseek(0) and read(n) return the first min(n, size) bytes of the concatenated buffers; spins exactly when the disk is too small. |
| `HeapLists.TilesCoverOnce` | src/kmalloc.c:41-98 | Blocks that tile [base, top) cover every address of it exactly once and no other address. |
| `HeapShape.MergeLoose` | src/kmalloc.c:87-95 | Merging a run of touching free blocks keeps lists, tiling and order and returns the swallowed descriptors. |
| `HeapShape.AfterMerge` | src/kmalloc.c:75-98 | After a merge the part already scanned has no touching blocks, and used blocks are as before. |
| `HeapSteps.FreeStep` | src/kmalloc.c:131-137 | Moving a used block to its sorted place in the free list keeps the heap well formed. |
| `HeapSteps.TakeStep` | src/kmalloc.c:157-164 | Moving a free block to the used list keeps it well formed with no touching free blocks. |
| `HeapSteps.ResizeStep` | src/kmalloc.c:165-168 | Growing or shrinking the top block moves top with it and keeps the tiling. |
| `HeapSteps.NewTopStep` | src/kmalloc.c:188-197 | A new block at top extends the tiling. |
| `HeapSteps.SplitStep` | src/kmalloc.c:169-180 | A split tiles the block's range by two blocks, and the new free one touches no other. |
| `HeapSteps.BlockAligned` | src/kmalloc.c:147-200 | Every block starts on an 8-byte boundary and lies inside [base, top). |
| `HeapSteps.LiveDisjoint` | src/kmalloc.c:147-200 | Live blocks never overlap. |
| `HeapSteps.FreeAddresses` | src/kmalloc.c:75-98 | The free addresses are exactly those of [base, top) that no used block covers, so compact preserves them. |
| `HeapSteps.FullRecovery` | src/kmalloc.c:75-98 | With nothing allocated the heap is untouched or one free block spanning [base, top). |
| `HeapSteps.RecoveredServes` | src/kmalloc.c:147-200 | Then a rounded request is served if and only if it is at most limit - base. |
| `KernelHeap.Heap.InsertBlock` | src/kmalloc.c:41-59 | The block goes before the first one not below it, and the list is relinked for exactly that. |
| `KernelHeap.Heap.ReleaseBlocks` | src/kmalloc.c:62-73 | The run's descriptors are cleared and pushed on the fresh list; no other descriptor changes. |
| `KernelHeap.Heap.ScanRun` | src/kmalloc.c:81-86 | Finds the maximal run of touching free blocks. |
| `KernelHeap.Heap.MergeRun` | src/kmalloc.c:87-95 | One block takes over the whole run. |
| `KernelHeap.Heap.Compact` | src/kmalloc.c:75-98 | Terminates with no two free blocks touching, changes no used block, and does nothing to a heap that is already so. |
| `KernelHeap.Heap.FindUsed` | src/kmalloc.c:127-143 | The first used block with that address, or none. |
| `KernelHeap.Heap.Free` | src/kmalloc.c:125-145 | Frees exactly the used block with that address, if there is one; all other live blocks and top are unchanged; otherwise nothing changes. |
| `KernelHeap.Heap.FindFit` | src/kmalloc.c:149-185 | The first free block that fits, all earlier ones do not. |
| `KernelHeap.Heap.Take` | src/kmalloc.c:157-164 | Moves it to the used list and keeps every extent. |
| `KernelHeap.Heap.Split` | src/kmalloc.c:169-180 | Cuts the block to size: one blank descriptor becomes one more free block; the compact call after it merges nothing. |
| `KernelHeap.Heap.Serve` | src/kmalloc.c:157-181 | Serves the request from the block found, wasting less than the split threshold unless descriptors have run out. |
| `HeapSteps.FirstFitIs` | src/kmalloc.c:153-156 | First fit is the least position in the free list whose block is long enough, or ends at top with room up to the limit. |
| `KernelHeap.Heap.AllocBlock` | src/kmalloc.c:147-200 | The first-fit block if there is one, at its old address: cut to size at the top, with top moved to its end; split from 16 spare bytes on if a descriptor is left; else whole. Only if none fits a fresh descriptor at the old top, if there is one and the limit allows; otherwise NULL and nothing changes. In each case top, the free list's length and the fresh list are stated; every other live block is unchanged and the heap stays well formed. |
| `KernelHeap.Heap.CountBlocks` | src/kmalloc.c:222-230 | The length of a list. |
| `KernelHeap.Heap.HeapCheck` | src/kmalloc.c:243-246 | free + used + fresh is always heap_max_blocks. |
| `KernelHeap.Heap.constructor` | src/kmalloc.c:101-123 | init gives a well-formed empty heap whose base lies behind the descriptor table. |
| `HeapRuns.AllocServes` | src/kmalloc.c:147-200 | Seen as a set of live extents, an allocation adds exactly one, aligned, large enough and apart from all others. |
| `HeapRuns.ReleaseServes` | src/kmalloc.c:125-145 | A release removes exactly the one at that address. |
| `HeapRuns.Perform` | src/kmalloc.c:125-200 | Any call does one of these or, refused, nothing; with nothing live a request is served if and only if its rounded size fits the whole heap. |
| `HeapRuns.Run` | src/kmalloc.c:125-200 | Any sequence of alloc and free keeps tiling, sorted free list without touching blocks, disjoint acyclic lists and the descriptor count, and refines the set of live extents call by call. |
| `HartProtocol.StepInv` | sbi/src/hart.c:28-96 | Every atomic step of every caller keeps the protocol invariant. |
| `HartProtocol.RunInv` | sbi/src/hart.c:28-96 | It holds after any interleaving of any number of hart_start, hart_stop and handler calls. |
| `HartProtocol.NoLostStart` | sbi/src/hart.c:28-46 | In every reachable state a hart in STARTING whose lock is free has its software interrupt pending. |
| `HartProtocol.LaunchesAreAcceptedStarts` | sbi/src/hart.c:75-96 | The launches of a hart are, in order and with exactly their three parameters, the accepted starts, minus one exactly while it is STARTING. |
| `HartProtocol.AcknowledgedAreAccepted` | sbi/src/hart.c:28-46 | Accepted starts are those acknowledged to their caller, plus at most one whose caller still holds the lock. |
| `HartProtocol.MutualExclusion` | sbi/src/lock.c:13-30 | At most one caller is inside a hart's critical section. |
| `HartProtocol.StartAlone` | sbi/src/hart.c:28-46 | hart_start, called when no one else moves, returns true if and only if the hart is one of the eight, its lock is free and it is stopped; the hart is then starting with the given parameters, interrupt pending and lock free, the start accepted and acknowledged. Otherwise no hart changes. |
| `HartProtocol.StopAlone` | sbi/src/hart.c:48-73 | hart_stop, called when no one else moves: a started hart with a free lock is stopped, no other one changes, and the result is false. |
| `HartProtocol.HandlerAlone` | sbi/src/hart.c:75-96 | hart_handle_msip on a free lock clears the interrupt, and launches the hart if and only if it is starting. |
| `HartProtocol.PendingStartLaunches` | sbi/src/hart.c:75-96 | The handler, run on a pending start, launches with its parameters and releases the lock. |
| `PageBits.GetIs` | src/page.c:23-31 | bk_test of page k of a byte is the k-th pair of binary digits, counted from the lowest. |
| `PageBits.OrCells` | src/page.c:39-47 | bk_set on the packed bytes changes exactly one page's two bits. |
| `PageBits.MaskCells` | src/page.c:54-62 | bk_clear frees exactly one page. |
| `PageBits.CellsDecide` | src/page.c:17-62 | The bytes are determined by the per-page cells, so equal cells mean bit-for-bit equal bookkeeping. |
| `PageCells.PicksUnique` | src/page.c:131-189 | The scan has only one possible result. |
| `PageCells.ChunkSize` | src/page.c:150-162 | The length of the chunk found: n less the free pages before its start, since the counter is not reset at taken pages; always n for n = 1. |
| `PageCells.WholeChunk` | src/page.c:131-189 | What a caller can check before the call: the chunk has the n pages asked for if and only if the first n free pages follow one another. |
| `PageCells.ShortChunk` | src/page.c:150-162 | A concrete pool in which two pages are asked for and one is given. |
| `PageCells.MarkOk` | src/page.c:176-184 | Marking takes only free pages and keeps "a taken page that is not last is followed by a taken one". |
| `PageCells.LiveChunk` | src/page.c:227-231 | From a taken page the end search stops at its own chunk's last page. |
| `PageCells.ReleaseOk` | src/page.c:200-241 | Freeing a live chunk start frees exactly that chunk and keeps the structure. |
| `PageCells.ReleasedChunks` | src/page.c:200-241 | Freeing any page of the heap, live, free or inside a chunk, keeps the chunk structure. |
| `PageCells.AllocThenFree` | src/page.c:131-241 | page_free of what page_nalloc returned restores every cell. |
| `PageCells.FreeingAFreePage` | src/page.c:200-241 | page_free of a page that is not allocated is harmless if and only if no page behind it is allocated. |
| `PageCells.FreedElsewhere` | src/page.c:227-238 | A concrete pool in which freeing a free page takes a live page from its owner. |
| `PageCells.CountsAddUp` | src/page.c:243-291 | Free and taken pages always add up to the total. |
| `PageAllocator.BookHoldsAllPages` | src/page.c:80-88 | The reserved bytes hold every page's bits if and only if the page count is divisible by 4 or its quarter is not a multiple of 4096. |
| `PageAllocator.BookTooSmall` | src/page.c:80-88 | With 16385 pages the bits of the last one lie outside the reserved bytes. |
| `PageAllocator.PagePool.Test` | src/page.c:23-31 | bk_test reads the page's cell. |
| `PageAllocator.PagePool.Set` | src/page.c:39-47 | bk_set ors into that cell only. |
| `PageAllocator.PagePool.Clear` | src/page.c:54-62 | bk_clear clears that cell only. |
| `PageAllocator.PagePool.constructor` | src/page.c:80-108 | page_init marks exactly the bookkeeping pages, for any number of pages; the bookkeeping is in order if and only if the reserved bytes hold every page. |
| `PageAllocator.PagePool.Scan` | src/page.c:141-174 | Finds the n-th free page and the start of its free run; nothing exactly when fewer than n pages are free. |
| `PageAllocator.PagePool.Nalloc` | src/page.c:131-189 | NULL exactly when n <= 0 or fewer than n pages are free; otherwise marks from the start of that run to the n-th free page, with 2 and the last one with 3; gives n pages if and only if the first n free pages are contiguous. |
| `PageAllocator.PagePool.TakeOne` | src/page.c:131-189 | For one page: exactly one free page becomes a live chunk. |
| `PageAllocator.PagePool.FindEnd` | src/page.c:213-231 | The end of the chunk to clear. |
| `PageAllocator.PagePool.Free` | src/page.c:200-241 | Refuses addresses outside the heap and the middle of a chunk, otherwise clears to the chunk's end; keeps the bookkeeping in order if and only if it refuses or the page is none of the bookkeeping's own. |
| `PageAllocator.PagePool.BelowHeap` | src/page.c:70-78 | Below the heap the wrapped difference, cut to an int, is negative, so the address is refused. |
| `PageAllocator.PagePool.FreeOne` | src/page.c:200-241 | A live one-page chunk becomes free, nothing else changes. |
| `PageAllocator.PagePool.Count` | src/page.c:243-291 | Both counts are exact and add up to the page total. |
| `PoolRuns.ChunksApart` | src/page.c:131-241 | Two live chunks are the same or share no page. |
| `PoolRuns.ChunksCover` | src/page.c:131-241 | A page behind the bookkeeping is not free exactly when it lies in a live chunk. |
| `PoolRuns.MarkAdds` | src/page.c:163-176 | Marking free pages as a chunk adds exactly that chunk to the live ones. |
| `PoolRuns.ClearRemoves` | src/page.c:227-236 | Clearing a live chunk removes exactly it. |
| `PoolRuns.TakeChunk` | src/page.c:131-185 | page_nalloc adds one chunk of free pages, or none and returns NULL. |
| `PoolRuns.ReturnChunk` | src/page.c:200-241 | page_free of what a call returned removes the chunk of that call, or nothing for NULL. |
| `PoolRuns.Run` | src/page.c:131-241 | For any sequence of page_nalloc and page_free, each free of a result not yet freed: every step adds or removes exactly the chunk of that call, so a chunk keeps its extent until it is freed, and the live chunks are disjoint and exactly the pages that are not free. |
| `EntryBits.MaskIsFlags` | src/mmu.c:41-41 | The valid and rwx masks are the model's flag tests, bit by bit. |
| `EntryBits.MaskIsHasBits` | src/mmu.c:170-170 | (entry & perms) == perms is the model's permission test. |
| `EntryBits.IndexBits` | src/mmu.c:23-24 | The three shift-and-mask indices are the model's quotients and remainders. |
| `EntryBits.PageNumberBits` | src/mmu.c:25-26 | So are the physical page numbers. |
| `EntryBits.EntryNumberBits` | src/mmu.c:123-123 | So are the page numbers of an entry. |
| `EntryBits.NextBits` | src/mmu.c:42-42 | Both spellings of the next table's address, (e >> 10) << 12 and (e << 2) & ~0xFFF, are the model's. |
| `EntryBits.BranchBits` | src/mmu.c:52-53 | So is the branch entry of a page-aligned table. |
| `EntryBits.LeafBits` | src/mmu.c:61-67 | So is the leaf entry at each of the three levels, for any flags. |
| `EntryBits.PhysicalBits` | src/mmu.c:122-147 | So is the physical address at each level. |
| `PageTable.OneWalk` | src/mmu.c:105-179 | mmu_translate and mmu_access_ok look at the same leaf: translation, fault and permission all come from one walk. |
| `PageTable.SamePageIndices` | src/mmu.c:21-26 | Two addresses lie in one virtual page of a level (mod 2^39) if and only if their table indices agree down to it. |
| `PageTable.LeafPhysical` | src/mmu.c:61-67 | With flags below bit 10 the entry mmu_map writes sends every address to the physical page base plus its offset. |
| `PageTable.LeafPerms` | src/mmu.c:66-67 | Its permissions are exactly the given bits plus valid. |
| `PageTable.LeafIsLeaf` | src/mmu.c:66-68 | For any flags with one of read, write and execute the stored entry is a leaf. |
| `PageTable.BranchFields` | src/mmu.c:46-55 | A new branch entry is no leaf and names the new table. |
| `PageTree.WalkInTree` | src/mmu.c:105-149 | The walk through a tree of distinct table pages. |
| `PageTree.Install` | src/mmu.c:46-55 | Hanging an empty table into the tree keeps it a tree and changes no address's walk. |
| `PageTree.PutLeafOk` | src/mmu.c:61-68 | Writing a leaf at any level leaves a tree, without the tables it cut off. |
| `PageTree.PutLeafWalk` | src/mmu.c:61-68 | Exactly the addresses of that page get the new leaf; every other walk is unchanged. |
| `PageTree.CutsOffIff` | src/mmu.c:61-68 | A leaf cuts tables off the tree exactly when it replaces a branch. |
| `TableGrowth.GrowByOne` | src/mmu.c:46-55 | One table page from the pool into the tree: a free page becomes live, the tree grows by it, no walk changes. |
| `TableGrowth.GrewTrans` | src/mmu.c:37-59 | Several such steps are one. |
| `MapMeaning.MapsMeans` | src/mmu.c:21-73 | After a successful mmu_map with flags below bit 10 every address of the page translates to the physical page base plus its offset with exactly the given permissions, and every other address keeps translation and permissions. |
| `MapMeaning.SameWalksMean` | src/mmu.c:46-55 | A failed mmu_map leaves translation and permissions of every address as they were. |
| `Mmu.PageTables.NewTable` | src/mmu.c:16-19 | A zeroed page that was free, or NULL exactly when none is. |
| `Mmu.PageTables.Descend` | src/mmu.c:37-59 | One round of the walk: follows the branch or installs an empty table; fails exactly when one is needed and none is left. |
| `Mmu.PageTables.Reach` | src/mmu.c:37-59 | The whole walk: changes no translation, fails exactly when fewer pages are free than tables are missing. |
| `Mmu.PageTables.Map` | src/mmu.c:21-73 | mmu_map fails exactly on a NULL table, a level above 2, no rwx bit, or too few free pages, and then no translation changes; otherwise, with any flags, exactly the page gets the new leaf; only new table pages, all formerly free, leave the pool. |
| `Mmu.PageTables.MapRange` | src/mmu.c:181-206 | If k is returned, exactly the first k level-sized pages of the aligned range are mapped in order; it stops early only on bad arguments or when the next page lacks a table and the pool is empty. The byte count is the 64-bit difference, so an end before the start wraps. |
| `MapMeaning.RangeCovers` | src/mmu.c:188-190 | For an end not before the start those pages cover the range from below its start to above its end, by less than a page each. |
| `MapMeaning.RangeInside` | src/mmu.c:181-206 | Each address of those pages translates offset-preservingly from the aligned-down start_phys, for ranges up to 2^39 bytes. |
| `MapMeaning.RangeOutside` | src/mmu.c:181-206 | Every other address keeps translation and permissions, for ranges of any length. |
| `TableRelease.WholeTree` | src/mmu.c:78-101 | A tree is what mmu_free needs to start from its root. |
| `TableRelease.KidReady` | src/mmu.c:87-95 | When an entry is reached, the subtree below it is still whole. |
| `TableRelease.EntryDone` | src/mmu.c:88-95 | After it exactly that subtree's pages are free and its entries cleared. |
| `TableRelease.TableDone` | src/mmu.c:97-99 | At the end the table's own page goes back, once. |
| `TableRelease.PagesLostIff` | src/mmu.c:61-101 | When a leaf has been written over an entry and the table is then freed, every page of the tree there was before is free if and only if the entry was no branch; the pages below a branch stay taken for good. |
| `Mmu.PageTables.FreeTable` | src/mmu.c:78-101 | mmu_free terminates by tree height; every table page below and at the given one is freed exactly once, no leaf target or other page is, no entry of these tables stays valid, and no other memory changes. |
| `TableLifetime.NoLargerPage` | src/mmu.c:41-43 | With compatible requests no mmu_map meets a larger page on its walk. |
| `TableLifetime.NothingCutOff` | src/mmu.c:61-68 | Nor does one cut off a table. |
| `TableLifetime.AllReturned` | src/mmu.c:78-101 | mmu_free gives back exactly what was taken since creation. |
| `TableLifetime.Lifetime` | src/mmu.c:16-101 | Create, any compatible mmu_map calls (successful or not, with any flags), free: the page bookkeeping is restored byte for byte, each table page was freed once, and memory outside them is unchanged. |
| `TableLifetime.TwoLevelTree` | src/mmu.c:16-73 | From any pool with two free pages: a table with one table below it, on two of them. |
| `TableLifetime.LeakOne` | src/mmu.c:16-101 | From any such pool, mapping a 2 MiB page, then a 1 GiB page over it, and freeing the table leaves exactly one page taken for good. |
| `UserCopy.PrefixUnique` | src/uaccess.c:6-52 | The longest accessible prefix is one number. |
| `UserCopy.RestOfPage` | src/uaccess.c:41-48 | To the end of the 4 KiB page permissions stay and physical addresses run on, at all three leaf levels. |
| `UserCopy.PhysicalBound` | src/mmu.c:122-147 | No translation equals the page-fault value. |
| `UserCopy.ChunkAccess` | src/uaccess.c:41-48 | A chunk of the loop is non-empty, inside one accessible page, and physically contiguous. |
| `UserCopy.StoredInPage` | src/uaccess.c:73-78 | Storing a chunk at once is storing its bytes one by one through the page table. |
| `UserCopy.StoredConcat` | src/uaccess.c:62-84 | Byte-by-byte stores of two buffers in sequence are those of their concatenation. |
| `UserCopy.StoredReadBack` | src/uaccess.c:54-87 | A stored byte reads back unless a later byte went to the same physical address. |
| `UserCopy.StoredElsewhere` | src/uaccess.c:54-87 | Memory no byte of the range names is unchanged. |
| `UserCopy.AccessIsUser` | src/uaccess.c:23-60 | The permission words 0x12 and 0x14 ask of the leaf that it is valid (bit 0), a user page (bit 4), and readable (bit 1) or writable (bit 2). |
| `UserCopy.PhysicalMemory.CopyFrom` | src/uaccess.c:6-52 | Terminates; goes on exactly as far as every byte has a leaf with bits 0, 1 and 4, moves exactly those bytes from translate(from+i), and touches nothing behind them. |
| `UserCopy.PhysicalMemory.CopyTo` | src/uaccess.c:54-87 | Terminates; goes on exactly as far as every byte has a leaf with bits 0, 2 and 4; memory becomes what byte-at-a-time stores of those bytes give, even where pages alias. |
| `UserMappings.MappedForUser` | src/mmu.c:21-73 | A page mapped with flags below 1024 is readable for the copies exactly if bits 1 and 4 are among the flags, writable exactly if bits 2 and 4 are. |
| `UserMappings.CopyFromMapped` | src/uaccess.c:6-52 | Bytes of a mapped page are all moved, from its physical page, or none is, by those flags. |
| `UserMappings.CopyToMapped` | src/uaccess.c:54-87 | Bytes to a mapped page are all stored, or nothing changes, by those flags. |
| `PpmText.DecimalDigits` | src/drawing.c:272-279 | The printed digits are digits and have the number as their value. |
| `PpmText.FitsBuffer` | src/drawing.c:263-275 | Exactly the numbers below 10000 have no more than the four digits the buffer holds. |
| `PpmText.ParseIntegerIs` | src/drawing.c:247-261 | read_integer returns the value mod 2^32 of the first run of digits that ends before the file does, and stops behind the byte that ended it. |
| `PpmText.ParseNothing` | src/drawing.c:251-252 | Without a digit it never returns. |
| `PpmText.ParsePrinted` | src/drawing.c:247-280 | It reads back what write_integer printed. |
| `PpmText.RoundTrip` | src/drawing.c:10-49 | For dimensions 1..9999 and any pixel bytes ppm_read of ppm_write's file gives width, height and image back. |
| `PpmText.ReadBack` | src/drawing.c:10-49 | For any 32-bit sizes whose printed form fits the buffer, none 0: ppm_read loads the absolute values of the two sizes as signed numbers and the first image bytes that many pixels take. |
| `PpmText.RoundTripIff` | src/drawing.c:10-49 | For all sizes that fit the buffer the file reads back to the same picture if and only if both are 1..9999: sizes from 2^32 - 9999 on lose their minus sign, and with a 0 ppm_read never returns. |
| `PpmText.EmptyPicture` | src/drawing.c:10-49 | The file of a 0 by 0 picture is one that ppm_read never finishes. |
| `Drawing.FillDigits` | src/drawing.c:272-275 | The buffer holds the digits backwards; it overruns exactly from 10000 on. |
| `Drawing.Stream.WriteInteger` | src/drawing.c:263-280 | Appends exactly the decimal digits of any 32-bit number, with a minus sign for negative ones; runs past its buffer exactly for five or more digits. |
| `Drawing.Stream.FindDigit` | src/drawing.c:251-252 | Reads up to the first digit. |
| `Drawing.Stream.ReadInteger` | src/drawing.c:247-261 | Reads one integer off the stream as ParseInteger says, wrapping at 2^32. |
| `PpmText.WritesPpm` | src/drawing.c:33-49 | For sizes 1..9999 the file is 80 54 10, the width, 32, the height, 10, "255", 10 and the image, the sizes as decimal numerals without leading zeros. |
| `PpmText.ReadsPpm` | src/drawing.c:10-31 | Any file of that form with as many image bytes as its sizes ask for is loaded with those sizes and bytes, and refused if its maximal value is not 255. |
| `PpmText.RefusesOthers` | src/drawing.c:15-17 | A file that does not begin with 80 54 10 is refused. |
| `PpmText.NegativeSize` | src/drawing.c:263-270 | A size 2^32 - n with n up to 2^31 is printed as a minus sign and n. |
| `Drawing.Stream.WritePpm` | src/drawing.c:33-49 | For any 32-bit sizes writes the header and the image; for 1..9999 the bytes are those of the format, written out; overruns exactly when the printed form of a size does not fit the buffer. |
| `Drawing.Stream.ReadPpm` | src/drawing.c:10-31 | Refuses what does not begin with 80 54 10, loads every file of the format with its sizes and bytes, refuses other maximal values; for any other file parses it as read_integer does or never returns. |
| `Rectangles.NextPixel` | src/drawing.c:60-64 | The wrapping column counter steps to the next pixel of the rectangle. |
| `Rectangles.WalkEnds` | src/drawing.c:78-78 | The end test of the save loop holds exactly after the last pixel. |
| `Rectangles.BoundFacts` | src/drawing.c:78-78 | In 32-bit arithmetic the bound is the expected one, and for rectangles without pixels exactly which of them start the walk. |
| `Rectangles.PixelInRange` | src/drawing.c:54-65 | Every pixel walked lies in the rectangle and in the framebuffer, at the expected row and column. |
| `Rectangles.AtOrder` | src/drawing.c:54-65 | Every pixel of the rectangle is walked. |
| `Rectangles.OrderAt` | src/drawing.c:54-65 | And once: the step at which a pixel is walked is determined by the pixel. |
| `Rectangles.SavedAndRestored` | src/drawing.c:51-94 | A rectangle saved from one framebuffer and loaded into another at the same place: the first one's RGB with alpha 255 inside, the other's pixels outside. |
| `Drawing.Framebuffer.Capture` | src/drawing.c:76-89 | The save loop collects the rectangle's RGB bytes row by row; for rectangles without pixels, exactly when it runs past the empty image. |
| `Drawing.Framebuffer.Advance` | src/drawing.c:83-88 | One step of the walk, with the counter wrapping through 2^32. |
| `Drawing.Framebuffer.Paint` | src/drawing.c:54-65 | The load loop paints exactly the rectangle and nothing outside it. |
| `Drawing.Framebuffer.Save` | src/drawing.c:71-94 | The file holds exactly the rectangle, also an empty one; exactly which rectangles make the walk or the header overrun. |
| `Drawing.Framebuffer.Load` | src/drawing.c:51-69 | The framebuffer becomes the painted one; nothing changes if there is no picture. |

## Left out

- Triple-indirect zones: the walk spins there and the allocation branches are unfinished.
- The descriptor table, paths, open flags, directories, inodes on disk, close, unlink and the bitmaps' own write-back.
- The block, GPU, input and other device drivers: the disk is an ideal block store, also where block_write_wrapper's and block_read_wrapper's temporary buffer is one sector short (src/block.c:241-278).
- Concurrency in the file system, the heap and the page pool: each call runs alone.
- Hart CSR writes, MRET, timers, and whether a spinning caller ever gets the lock.
- Misaligned superpages in hand-written tables, and entries with bits above 53 set.
- calloc, the printing of heap statistics, and page_znalloc of more than one page, which only add a memset.
- ELF loading, processes, scheduling, traps, system calls and the user programs.
- MinixFile.OpenFile.Write: no file reaches the triple-indirect range, and device addresses stay below 2^32. From an offset before the zone a write may overwrite one of the file's own pointer zones; if it then goes on behind the zone, it follows the overwritten pointers, and that is not modelled.
- MinixFile.OpenFile.WriteHead: the same.
- MinixFile.OpenFile.Read: more than 1024 bytes from an offset before the zone overrun the buffer on the stack; the call ends there.
- KernelHeap.Heap.AllocBlock: no request of 0 bytes, which would make an empty block, and no size near 2^64.
- PageAllocator.PagePool.Free: not the page at index 0, the first of the bookkeeping, for which the code shifts by a negative amount.
- PageAllocator.PagePool.constructor: where the reserved bytes do not hold every page, what the bits behind them share with the first allocatable page is not followed further.
- Mmu.PageTables.Map: no leaf above the target level, where the code walks into the mapped page as if it were a table.
- Mmu.PageTables.MapRange: the same, and no level above 2, for which the page size is undefined.
- MapMeaning.MapsMeans: for flags of 1024 and above, which are or'ed into the page number, Map states the entry that results, this lemma says nothing.
- MapMeaning.RangeInside: in ranges longer than 2^39 bytes pages alias and the last one wins; MapsRange states that, this lemma does not.
- UserCopy.PhysicalMemory.CopyTo: user pages hold no page tables and kernel buffers are not user pages.
- UserCopy.PhysicalMemory.CopyFrom: the same.
- Drawing.Stream.WriteInteger: what an overrun of the buffer does to the stack is not modelled; the call ends there.
- Drawing.Framebuffer.Load: a file that is refused or never finished leaves the framebuffer alone, where the kernel would follow a null pointer or spin; pictures that do not fit the framebuffer and the allocation of the PPM structure are not modelled.
- Drawing.Framebuffer.Save: the same, and what an overrun of the empty image does to the heap.
