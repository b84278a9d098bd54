# Plum-OS in Dafny

A model of the stateful algorithms of the Plum-OS kernel, with proofs about them: the heap and the
page tables it feeds, the storage stack from sectors to files, the xHCI rings, the GPT checksums,
the TCP socket machine, the scheduler, and the containers and memory routines below them.

`dafny verify dfyconfig.toml` checks everything.

## Layout

| Files | What they hold |
|---|---|
| `Machine` | 64-bit wrap-around, alignment to multiples and powers of two |
| `BlockList`, `Heap`, `HeapRuns` | the allocator: list operations, the linked headers that refine them, whole runs |
| `AlignedHeap`, `AlignedRuns` | the aligned and boundary-respecting wrappers, and runs that mix all five operations |
| `Paging`, `PageTables` | the four-level walk on values, and the mapping loops over a real heap |
| `Memory`, `Disk`, `Fat`, `FatUpdate`, `Chain`, `File` | copy routines, sectors to flat bytes, the allocation table, cluster chains, files |
| `Prdt` | descriptor tables of disk transfers |
| `ProducerRing`, `EventRing` | xHCI rings with the controller as the other party |
| `Crc32`, `CrcPolynomial`, `Gpt` | CRC-32, the polynomial division it is, and the GPT checks that use it |
| `Checksum` | the Internet checksum |
| `Tcp`, `TcpRuns`, `TcpConnect`, `Receive` | the sockets with the code that changes them, whole runs, what each operation gets done, and the bytes a reader receives |
| `Scheduler` | round robin, turns, and how long a thread waits |
| `Vector`, `HashMap` | the kernel's containers |

Code that changes state is a class whose methods carry the source's branches, loops and stores in
its order and are proved equal to a function on values; the theorems are about those functions, so
they hold of the code. Method and function share record values (a blank socket, a descriptor's
fields) and one-line arithmetic (a bit step of the CRC, the word stored in a table). Addresses are
natural numbers. Shifts by constants are quotients by powers of two and masks of low bits are
remainders; the mask with a variable alignment is written bit by bit (`Machine.AndNot`), and
`Machine.MaskAligns` and `Machine.AlignDownIs` say what it rounds to. 8-, 16-, 32- and 64-bit
wrap-around is written out where it can happen. Ghost parameters (a chain of clusters, the index of
a block) name the abstract object that a call works on and compute nothing.

## What the proofs found

- `EventRing`: `dequeue_events` hands over slot addresses and writes ERDP before the caller reads
  the events. A slot handed over holds its event exactly while fewer than N events have been
  produced after it (`ReadableExactly`), so after a complete drain of k slots all k can be read
  exactly while at most N - k have been produced since (`DrainReadable`). Reads that are later lose
  events: in the run of `LateRead` the caller reads one event twice and the other never. Completion
  events are the most exposed, because `_send_command_trb` reads them long after the drain.
- `ProducerRing`: a store of the link TRB keeps the outstanding work findable exactly when the
  controller does not rest on that link since the lap before; otherwise the controller stops for
  good with a full ring (`LinkFound`, `LostIsStuck`, reached by the run of `ParkingHappens`). A
  controller that follows the link between the two stores of `enqueue` loses nothing, and runs that
  end otherwise lose nothing either (`Fifo`). For whole calls `EnqueueFound` gives the condition
  before the call; at most N - 2 outstanding is always safe (`BoundAvoidsParking`).
- `Scheduler`: a thread that stays runnable while some thread runs is chosen in bounded time
  (`BoundedWaiting`). Once `exit_current` finds no other runnable thread, which it does exactly when
  there is none (`ExitHalts`), no tick ever selects a thread again, also not one that becomes
  runnable later (`HaltedForGood`, `NeverSelected`).
- `AlignedHeap`: the overflow guard of `malloc_boundry` compares modulo 2^64 (`GuardExact`). It lets
  through sums above 2^64 - 16 whenever the arguments as given still add up to less than 2^64, and
  an alignment and a boundary of 2^63 together (`GuardSlips`). On every heap with a free block one
  such request, for 2^64 - 10 bytes, is answered with a pointer into a block of fewer than 48 bytes
  (`GuardGap`). On a heap on one
  side of 2^63 the arguments that pass the checks are served exactly when their sum is at most
  2^64 - 16 and the request fits its window (`BoundryExact`). `malloc_align` has no guard and serves
  exactly the sums up to 2^64 - 16 (`AlignExact`). The mask aligns every address exactly for powers
  of two (`Machine.MaskExact`).
- `Gpt`: the header checksum does not protect `header_size`. For a header that covers all its 92
  bytes, damage inside a window of up to four bytes away from the checksum field is always rejected
  exactly when the window does not meet `header_size` (`WindowProtected`): below 92 the damaged
  bytes may no longer be covered, above 92 the code checksums memory behind its copy. A header with
  stored checksum 0 passes with `header_size` zeroed (`SizeDamagePasses`). Bytes behind
  `header_size` are not covered in the first place.
- `Prdt`: a write table covers the transfer exactly when eight pieces hold it and either one piece
  does or the sector size divides 8192 (`WriteCovers`). The table length is the piece count modulo
  65536: a transfer of more than 65536 pieces can pass as a short one (`CutExample`), and for a
  multiple of 65536 pieces the code stores in front of the table (`OutcomeExactly`). An empty write
  does so exactly when the number of sectors in a piece divides 65536 (`EmptyOutside`), as it does
  for sectors of 512 bytes. A read table covers the request exactly when its byte count is below
  2^32 and the controller has 64-bit addresses or the buffer ends by 4 GB (`ReadCovers`): a read of
  2^23 sectors of 512 bytes succeeds with an empty table.
- `Memory`: `memcpy` is right for all contents exactly when it does not copy upwards inside one
  array; otherwise it repeats an earlier byte (`Memcpy`).
- `Checksum`: for every length an `int` holds the result is right exactly when the sum fits in 32
  bits (`SumRight`), which it does up to 131074 bytes and not beyond (`ExactIsSharp`).
- `FatUpdate`: an update touches nothing but the tables exactly when the entry lies inside the table
  (`UpdateConfined`); the code compares the cluster with `max_cluster` only. `find_free_cluster`
  never returns `max_cluster`, although lookup and update accept it.
- `File`: a write, a seek back and a read return what was written exactly when the write ends below
  2^32, where the size in the directory entry wraps (`WriteThenRead`).
- `Receive`: a payload is acknowledged whether or not the queue takes it. Over every run what was
  acknowledged is what the reader got followed by what is queued exactly when no payload met 127
  others and no read was shorter than its payload (`Delivered`).
- `receive_tcp` drops a FIN that comes with a payload, and payloads of 8197 bytes and more
  (`RecvAdvances` gives the exact condition). It goes on with a null socket exactly for a SYN of a
  new connection to a listener while all 128 sockets exist (`NullExactly`); one listener and 127
  SYNs lead there (`NullReached`). A segment from address 0 and port 0 is taken for a
  listener's own, without further effect (`ZeroReachesListeners`).

## Model

| member | source | states |
|---|---|---|
| `BlockList.Round16` | src/kernel/Memory/heap.cpp:26 | the rounded size is the next multiple of 16, and 0 exactly for sizes above 2^64 - 16 |
| `BlockList.FirstFit` | src/kernel/Memory/heap.cpp:27-28 | the lowest free block that is big enough, none exactly when no block is |
| `BlockList.AllocKeeps` | src/kernel/Memory/heap.cpp:30-46 | an allocation keeps the blocks tiling the heap without gap or overlap, 16-aligned, with no two free neighbours |
| `BlockList.ReleaseKeeps` | src/kernel/Memory/heap.cpp:52-76 | so does a free |
| `BlockList.ReleaseIsOnce` | src/kernel/Memory/heap.cpp:60-75 | in a coalesced list the two merging loops replace the block and its free neighbours, at most three blocks, by one |
| `BlockList.Disjoint` | src/kernel/Memory/heap.cpp:30-46 | two different blocks share no byte, headers included |
| `BlockList.SizesAligned` | src/kernel/Memory/heap.cpp:13-23 | every size is a multiple of 16 when the heap's is |
| `BlockList.Conservation` | src/kernel/Memory/heap.cpp:13-76 | sizes plus 32 bytes a block always add up to the heap |
| `BlockList.SplitExactly` | src/kernel/Memory/heap.cpp:30-46 | a block is split exactly when 48 bytes are left over; front, back and all other blocks are as stated |
| `BlockList.AllocUsed` | src/kernel/Memory/heap.cpp:30-46 | an allocation adds one new block to the allocated ones and changes no other |
| `BlockList.ReleaseUsed` | src/kernel/Memory/heap.cpp:52-76 | a free takes exactly its block from the allocated ones |
| `BlockList.AllocReleaseRestores` | src/kernel/Memory/heap.cpp:25-76 | freeing what was just allocated restores exactly the earlier block list |
| `BlockList.DoubleFreeIsIdle` | src/kernel/Memory/heap.cpp:55-58 | freeing a free block of the list changes nothing |
| `BlockList.AllFreeIsInitial` | src/kernel/Memory/heap.cpp:13-76 | a well-formed heap with nothing allocated is the single initial block |
| `Heap.SplitRefines` | src/kernel/Memory/heap.cpp:30-42 | the stores of a split keep the list doubly linked and are the list operation |
| `Heap.AbsorbRefines` | src/kernel/Memory/heap.cpp:60-67 | the stores of a merge keep the list doubly linked and are the list operation |
| `Heap.Heap.constructor` | src/kernel/Memory/heap.cpp:13-22 | heap_init leaves one free block that fills the heap |
| `Heap.Heap.Malloc` | src/kernel/Memory/heap.cpp:25-50 | the pointer code refines first fit: null exactly when nothing fits, else the payload of the lowest fitting block |
| `Heap.Heap.Free` | src/kernel/Memory/heap.cpp:52-76 | the pointer code refines the list operation, and the links, tiling and coalescing hold again after it |
| `Heap.Heap.CheckHeap` | src/kernel/Memory/heap.cpp:169-191 | check_heap returns the heap size less 32 bytes a block; free and used bytes add up to it |
| `HeapRuns.RunKeeps` | src/kernel/Memory/heap.cpp:13-76 | over every run of malloc and valid free the list is well formed and its allocated blocks are exactly the live pointers |
| `HeapRuns.Safety` | src/kernel/Memory/heap.cpp:25-76 | in every reachable heap a live request's bytes are 16-aligned, inside the heap, and apart from every header and every other live request |
| `HeapRuns.Stable` | src/kernel/Memory/heap.cpp:25-76 | an allocated block keeps address and size until its own free |
| `HeapRuns.Recovery` | src/kernel/Memory/heap.cpp:52-76 | once every pointer has been freed, in any order, the heap is as heap_init left it |
| `HeapRuns.MallocOutcome` | src/kernel/Memory/heap.cpp:25-50 | malloc fails exactly when every free block is too small, and gives enough bytes exactly when rounding did not wrap |
| `HeapRuns.Execute` | src/kernel/Memory/heap.cpp:13-76 | the linked headers follow every possible run step by step |
| `AlignedHeap.MallocAlign` | src/kernel/Memory/heap.cpp:78-94 | block list, stored word and pointer are those of the specification for every size and alignment, masks and wrap-around included |
| `AlignedHeap.AlignServes` | src/kernel/Memory/heap.cpp:78-94 | a sum of at most 2^64 - 16 fails only for want of a block; the result is the first aligned address behind the word and lies with its word inside the raw block |
| `AlignedHeap.AlignExact` | src/kernel/Memory/heap.cpp:78-94 | for a power of two, what is handed out is served exactly when the sum of the arguments is at most 2^64 - 16 |
| `AlignedHeap.ZeroAlign` | src/kernel/Memory/heap.cpp:79 | an alignment of 0 is one of 1 |
| `AlignedHeap.ServedOwns` | src/kernel/Memory/heap.cpp:78-94 | serving a request overwrites no word in front of an earlier pointer |
| `AlignedHeap.ServedRestores` | src/kernel/Memory/heap.cpp:96-103 | the stored word leads to the raw block, and giving it back restores the heap |
| `AlignedHeap.FreeAlign` | src/kernel/Memory/heap.cpp:96-103 | free_align (and free_boundry, the same code) releases exactly the raw block and leaves every other aligned pointer owned |
| `AlignedHeap.MallocBoundry` | src/kernel/Memory/heap.cpp:105-158 | state, pointer and error number are those of the specification for all arguments |
| `AlignedHeap.Settle` | src/kernel/Memory/heap.cpp:126-153 | the branches of the alignment, the boundary correction and the end check decide as the specification, in 64-bit arithmetic |
| `AlignedHeap.PlaceDecides` | src/kernel/Memory/heap.cpp:126-153 | the placement is refused exactly for a window the request cannot fit; error 5 has no cause |
| `AlignedHeap.PlaceLeast` | src/kernel/Memory/heap.cpp:126-147 | what is placed is the least aligned address behind the word that crosses no boundary |
| `AlignedHeap.EndCheck` | src/kernel/Memory/heap.cpp:149 | the last check compares the two ends modulo 2^64 |
| `AlignedHeap.Refusals` | src/kernel/Memory/heap.cpp:106-114 | arguments that fail the guard are refused with error 1, boundaries that are no power of two with error 2, and nothing changes |
| `AlignedHeap.BoundryServes` | src/kernel/Memory/heap.cpp:105-158 | for sums of at most 2^64 - 16: the exact cause of each refusal, and otherwise the least pointer that is aligned and crosses no boundary, with its word in the raw block |
| `AlignedHeap.BoundryExact` | src/kernel/Memory/heap.cpp:105-158 | of the arguments that pass the checks exactly those with a sum of at most 2^64 - 16 and no bad window are served, on a heap on one side of 2^63 |
| `AlignedHeap.GuardExact` | src/kernel/Memory/heap.cpp:106 | the guard passes exactly when the size does not carry over the other terms, themselves taken modulo 2^64 |
| `AlignedHeap.GuardSlips` | src/kernel/Memory/heap.cpp:106-109 | the arguments that pass although their sum wraps or rounds away |
| `AlignedHeap.SumReachesMalloc` | src/kernel/Memory/heap.cpp:81-83 | the sum of the arguments survives wrapping and rounding exactly up to 2^64 - 16 |
| `AlignedHeap.GuardGap` | src/kernel/Memory/heap.cpp:106-109 | on every heap with a free block a request for 2^64 - 10 bytes is answered with a pointer into a block of fewer than 48 bytes |
| `Machine.MaskAligns` | src/kernel/Memory/heap.cpp:88 | the mask with a power of two rounds down to a multiple |
| `Machine.MaskExact` | src/kernel/Memory/heap.cpp:88 | it aligns every address exactly for powers of two |
| `Machine.PowerTest` | src/kernel/Memory/heap.cpp:111 | the test on the boundary is zero exactly for powers of two |
| `Machine.AlignDownIs` | src/kernel/Memory/heap.cpp:26 | rounding down is taking off the remainder |
| `AlignedRuns.RunKeeps` | src/kernel/Memory/heap.cpp:25-167 | over every mixed run of the five operations the heap is well formed and every outstanding aligned pointer sits in a block of its own |
| `AlignedRuns.Safety` | src/kernel/Memory/heap.cpp:25-167 | in every reachable heap an aligned pointer is aligned, crosses no boundary, still has its word, and shares neither word nor bytes with any header or other pointer |
| `AlignedRuns.Recovery` | src/kernel/Memory/heap.cpp:25-167 | once every plain and aligned pointer has been freed, in any order, the block list is as heap_init left it |
| `AlignedRuns.Execute` | src/kernel/Memory/heap.cpp:13-167 | the pointer code follows every possible mixed run step by step |
| `Paging.OrIsSum` | src/kernel/Paging.cpp:55 | frame and flags share no bit, so the stored word is their sum and gives the frame back |
| `Paging.EntryParts` | src/kernel/Paging.cpp:55 | frame, flags and rights read back from an entry as they were stored |
| `Paging.RightsBits` | src/kernel/Paging.hpp:8-10 | bits 0, 1 and 2 of an entry mean present, writable and user |
| `Paging.OnePath` | src/kernel/Paging.cpp:33-55 | no table is reached by two paths |
| `Paging.AddTableTree` | src/kernel/Paging.cpp:37-40 | hanging a new page under an absent entry keeps the tables a tree |
| `Paging.AddTableTranslate` | src/kernel/Paging.cpp:37-40 | and changes no translation |
| `Paging.SetLeafTranslate` | src/kernel/Paging.cpp:54-55 | a leaf sets the translation of its page, with exactly its flags as effective rights, and of no other page |
| `Paging.TranslateLeaf` | src/kernel/Paging.cpp:37-55 | interior entries take no right away |
| `Paging.PathDigits` | src/kernel/Paging.cpp:63-66 | the four indices are the digits of the 36-bit page number, so a page has one path |
| `Paging.OffsetIs` | src/kernel/Paging.cpp:60-66 | the page at an offset below 2^48 is met by that offset and no other, around the 64-bit wrap too |
| `PageTables.NewPage` | src/kernel/Paging.cpp:19-23 | a page cut from the heap is no table yet and no earlier page moves: the heap's disjointness in physical addresses |
| `PageTables.PageTables.AllocPage` | src/kernel/Paging.cpp:19-23 | the page is fresh and zeroed, and fails exactly when the heap holds no block big enough |
| `PageTables.PageTables.EnsureTable` | src/kernel/Paging.cpp:69-73 | the entry leads to a table one level down, other tables stay, and every translation is as before; fails exactly for an absent entry on a heap without room |
| `PageTables.PageTables.MapPage` | src/kernel/Paging.cpp:60-88 | one round maps its page as asked and changes no other translation |
| `PageTables.PageTables.MapMemoryVp` | src/kernel/Paging.cpp:59-89 | for every 36-bit page number: inside the range it translates to physical plus offset with exactly the given flags, outside as before |
| `PageTables.RoundsToPages` | src/kernel/Paging.cpp:28-29 | the start is rounded down and the end up to multiples of 4096 |
| `PageTables.PageTables.MapMemory` | src/kernel/Paging.cpp:27-57 | the same with identity addresses on the range rounded to pages, an empty or inverted one included |
| `Memory.Memmove` | src/libs/libc/memory.cpp:29-42 | right for every overlap, and nothing outside the destination changes |
| `Memory.Memcpy` | src/libs/libc/memory.cpp:13-27 | words and tail are right for disjoint ranges and for every overlap with the destination below the source; for every other overlap a named byte repeats an earlier one |
| `Memory.Memset32` | src/libs/libc/memory.cpp:59-74 | paired 64-bit stores equal the plain 32-bit fill for every count |
| `Memory.LowByteFirst` | src/libs/libc/memory.cpp:59-74 | byte i of a stored 32-bit value is the value shifted down by i bytes |
| `Disk.Disk.ReadBytes` | src/Drivers/achi/ahci_device.h:23-54 | the slice of the flat disk at start * sector size + offset; on failure a prefix of it |
| `Disk.Disk.WriteBytes` | src/Drivers/achi/ahci_device.h:65-107 | exactly the splice there, all other bytes of the touched sectors kept; on failure a prefix of it |
| `Disk.Disk.WriteThenRead` | src/Drivers/achi/ahci_device.h:23-107 | reading the range just written gives back the bytes written |
| `Disk.Disk.WriteChunk` | src/Drivers/achi/ahci_device.h:84-97 | a sector is rewritten around the chunk whether it was read first or replaced whole |
| `Fat.FileSystem.GetNextCluster` | src/Drivers/fs/FAT32/FAT32FileSystem.cpp:110-142 | the successor the active table gives, 0 at the end of a chain, failure exactly when it gives none |
| `Fat.FileSystem.SetNextCluster` | src/Drivers/fs/FAT32/FAT32FileSystem.cpp:189-234 | success leaves the specified update of all tables; on a reliable disk it succeeds exactly when the arguments pass and every entry lies on the disk |
| `Fat.FileSystem.FindFreeCluster` | src/Drivers/fs/FAT32/FAT32FileSystem.cpp:144-187 | the least free cluster of the table below max_cluster, and failure only when there is none |
| `FatUpdate.UpdateTables` | src/Drivers/fs/FAT32/FAT32FileSystem.cpp:199-231 | the update puts one word into the active table, or mirrored into every table, at its place and no other |
| `FatUpdate.UpdateOutside` | src/Drivers/fs/FAT32/FAT32FileSystem.cpp:199-231 | no byte outside the tables changes |
| `FatUpdate.UpdateSuccessor` | src/Drivers/fs/FAT32/FAT32FileSystem.cpp:110-234 | lookup after update gives the new value, every other successor is as before, the top four bits survive |
| `FatUpdate.StoredNext` | src/Drivers/fs/FAT32/FAT32FileSystem.cpp:131-140 | exactly the cluster numbers read back as themselves and exactly the end marks as 0; free, reserved and bad entries have no successor |
| `FatUpdate.EntryPlace` | src/Drivers/fs/FAT32/FAT32FileSystem.cpp:198-201 | the entry of a cluster is at sector starting_lba + reserved + table * sectors_per_FAT, four bytes a cluster |
| `FatUpdate.LookedUp` | src/Drivers/fs/FAT32/FAT32FileSystem.cpp:110-141 | there is a successor exactly for clusters from 2 to max_cluster whose entry in the active table is on the disk and names one |
| `FatUpdate.FlagBits` | src/Drivers/fs/FAT32/FAT32FileSystem.cpp:193-195 | bit 7 of the flags turns mirroring off, bits 0 to 3 then name the active table |
| `FatUpdate.MirroringOn` | src/Drivers/fs/FAT32/FAT32FileSystem.cpp:193-231 | with bit 7 clear every table gets the new entry and no other change, and table 0 answers lookups |
| `FatUpdate.MirroringOff` | src/Drivers/fs/FAT32/FAT32FileSystem.cpp:193-231 | with bit 7 set exactly the table that bits 0 to 3 name changes and answers |
| `FatUpdate.MirrorsStayEqual` | src/Drivers/fs/FAT32/FAT32FileSystem.cpp:220-231 | with mirroring on, identical tables stay identical |
| `FatUpdate.UpdateConfined` | src/Drivers/fs/FAT32/FAT32FileSystem.cpp:189-234 | nothing but the tables meant changes, for every value, exactly when the entry lies inside the table |
| `Chain.ContentAt` | src/Drivers/fs/FAT32/FAT32File.cpp:117-126 | bytes of the concatenated chain inside one cluster are that cluster's bytes on the disk |
| `Chain.ContentWrite` | src/Drivers/fs/FAT32/FAT32File.cpp:51-59 | a write inside a cluster of the chain is the write at the matching place of the concatenation |
| `Chain.WriteInChain` | src/Drivers/fs/FAT32/FAT32File.cpp:51-59 | and leaves the tables, the chain and every byte outside it |
| `Chain.OthersApart` | src/Drivers/fs/FAT32/FAT32FileSystem.hpp:29-31 | a cluster of another file meets no cluster of the chain |
| `Chain.ClusterPlace` | src/Drivers/fs/FAT32/FAT32FileSystem.hpp:29-31 | clusters from 2 on lie one behind the other in the data region |
| `File.File.constructor` | src/Drivers/fs/FAT32/FAT32File.cpp:9-14 | first cluster and size are the little-endian numbers in the directory entry, which is kept whole |
| `File.File.Walk` | src/Drivers/fs/FAT32/FAT32File.cpp:36-46 | the walk reaches the cluster of the position exactly when the chain is that long, and ends on cyclic tables too |
| `File.File.Write` | src/Drivers/fs/FAT32/FAT32File.cpp:26-85 | replaces exactly the bytes at the position, touches nothing but the chain's clusters and, of a directory entry that was there, the four bytes of the size; the stored entry is the file's own; moves the position, raises the size; complete on a reliable disk exactly when the chain is long enough |
| `File.File.KeptSpares` | src/Drivers/fs/FAT32/FAT32File.cpp:48-84 | what a write keeps includes every allocation table and every cluster of other files |
| `File.File.Read` | src/Drivers/fs/FAT32/FAT32File.cpp:87-154 | returns min(size, file_size - position) bytes of the concatenated chain, if the chain has them, and moves the position past them; ends on cyclic tables too |
| `File.File.AvailableIs` | src/Drivers/fs/FAT32/FAT32File.cpp:91-95 | what can be read ends at file_size, and is all that was asked for or all there is |
| `File.File.Seek` | src/Drivers/fs/FAT32/FAT32File.cpp:165-207 | moves exactly to places in [0, file_size], in 64-bit arithmetic, else changes nothing |
| `File.File.Truncate` | src/Drivers/fs/FAT32/FAT32File.cpp:209-223 | sets the size up to one cluster without touching content or chain; a failed update is undone |
| `File.File.UpdateEntry` | src/Drivers/fs/FAT32/FAT32File.cpp:16-24 | the whole entry is stored as it was read but for the size; of an entry that was there only the size changes, also when the write fails; content, chain and tables stay |
| `File.File.WriteThenRead` | src/Drivers/fs/FAT32/FAT32File.cpp:26-207 | through all three layers, writing, seeking back and reading returns the bytes written exactly when the write ends below 2^32 |
| `Prdt.CoversOnce` | src/Drivers/achi/ahci_port.cpp:169-189 | every byte of the buffer is in exactly one entry of a tiling table, and no other byte in any |
| `Prdt.BuildRead` | src/Drivers/achi/ahci_port.cpp:169-190 | succeeds exactly when at most 8 pages are touched; the entries tile the buffer in order as the controller sees it, stay inside pages, and only the last raises the interrupt; the whole request exactly below 2^32 bytes |
| `Prdt.ReadCovers` | src/Drivers/achi/ahci_port.cpp:169-190 | a read's table covers the request exactly when the 32-bit byte count did not wrap and the addresses fit the controller |
| `Prdt.SeenExactly` | src/Drivers/achi/ahci_port.cpp:180-183 | such a table names the buffer itself exactly with 64-bit addresses or an end by 4 GB |
| `Prdt.BuildWrite` | src/Drivers/achi/ahci_port.cpp:220-252 | the outcome and the table are those of the specification, 16-, 22- and 32-bit fields included |
| `Prdt.OutcomeExactly` | src/Drivers/achi/ahci_port.cpp:227-233 | the piece count modulo 65536 alone decides between a table, a refusal and stores in front of the table |
| `Prdt.EmptyOutside` | src/Drivers/achi/ahci_port.cpp:227-233 | an empty write stores in front of the table exactly when the number of sectors in a piece divides 65536 |
| `Prdt.WriteCovers` | src/Drivers/achi/ahci_port.cpp:220-252 | for every positive count a table is built and describes the whole transfer exactly when eight pieces hold it and one does or the sector size divides 8192 |
| `Prdt.WriteTiles` | src/Drivers/achi/ahci_port.cpp:239-252 | and then its entries tile the buffer in order in pieces of at most 8192 bytes |
| `Prdt.WriteFields` | src/Drivers/achi/ahci_port.cpp:239-252 | every entry of a write raises the interrupt and keeps to the widths of its fields |
| `Prdt.CutExample` | src/Drivers/achi/ahci_port.cpp:227-231 | a transfer whose piece count is cut to one and whose table names one sector |
| `ProducerRing.ProducerRing.constructor` | src/Drivers/USB/xHCI/xHCI_rings.cpp:10-22 | fresh slots carry the opposite cycle bit, the link already the current one |
| `ProducerRing.ProducerRing.Enqueue` | src/Drivers/USB/xHCI/xHCI_rings.cpp:24-33 | one TRB store, followed at the end of a lap by the link store and the toggle; also the transfer ring's code at lines 163-180 |
| `ProducerRing.ConsumeKeeps` | src/Drivers/USB/xHCI/xHCI_rings.cpp:24-33 | what the controller consumes is the oldest outstanding TRB |
| `ProducerRing.PutLinkKeeps` | src/Drivers/USB/xHCI/xHCI_rings.cpp:28-32 | storing the link keeps the lap structure of cycle bits unless the controller rests on it |
| `ProducerRing.RunKeeps` | src/Drivers/USB/xHCI/xHCI_rings.cpp:10-33 | the lap structure holds over every interleaving of the single stores with the controller's steps, except after a last store of the link over a resting controller |
| `ProducerRing.Fifo` | src/Drivers/USB/xHCI/xHCI_rings.cpp:10-33 | over all these interleavings TRBs are consumed once and in order, and the cycle test finds work exactly when some is outstanding, if and only if the run does not end with such a store |
| `ProducerRing.LinkFound` | src/Drivers/USB/xHCI/xHCI_rings.cpp:28-32 | the store of the link keeps outstanding work findable exactly when the controller does not rest on it; else no step is possible any more |
| `ProducerRing.LostIsStuck` | src/Drivers/USB/xHCI/xHCI_rings.cpp:173-179 | after that store neither party can move |
| `ProducerRing.EnqueueFound` | src/Drivers/USB/xHCI/xHCI_rings.cpp:163-180 | a whole call with at most N - 2 outstanding before it is found exactly when it does not end a lap over a resting controller |
| `ProducerRing.BoundAvoidsParking` | src/Drivers/USB/xHCI/xHCI_rings.cpp:163-180 | a producer that never has more than N - 2 outstanding keeps its work findable over every interleaving |
| `ProducerRing.ParkingHappens` | src/Drivers/USB/xHCI/xHCI_rings.cpp:173-179 | a run that loses its last TRB so |
| `EventRing.EventRing.DequeueEvents` | src/Drivers/USB/xHCI/xHCI_rings.cpp:73-88 | for arbitrary contents it stops within a lap with the longest run of unseen slots in order, and ERDP names the next slot |
| `EventRing.EventRing.DequeueTrb` | src/Drivers/USB/xHCI/xHCI_rings.cpp:101-115 | one slot forward around the ring, the expected cycle bit toggling at its end; a seen TRB moves nothing |
| `EventRing.RunKeeps` | src/Drivers/USB/xHCI/xHCI_rings.cpp:69-115 | cycle bits, pointers and ERDP stay consistent over every interleaving with the controller |
| `EventRing.ExactlyOnce` | src/Drivers/USB/xHCI/xHCI_rings.cpp:69-115 | over every interleaving slots are handed over once each in the order of the events, waiting events are not overwritten, and the cycle test succeeds exactly when one waits |
| `EventRing.ReadableExactly` | src/Drivers/USB/xHCI/xHCI_rings.cpp:80-87 | a slot handed over still holds its event exactly while fewer than N events were produced after it |
| `EventRing.HeldReadable` | src/Drivers/USB/xHCI/xHCI_rings.cpp:73-83 | until ERDP is written every slot handed over since holds its event |
| `EventRing.DrainReadable` | src/Drivers/USB/xHCI/xHCI.cpp:138-147 | after a complete drain of k slots all k events can be read exactly while at most N - k have been produced since |
| `EventRing.ReadsInOrder` | src/Drivers/USB/xHCI/xHCI.cpp:146-203 | if every read is that timely the caller reads each event once and in order |
| `EventRing.LateRead` | src/Drivers/USB/xHCI/xHCI.cpp:141-150 | a run in which the caller reads one event twice and the other never |
| `EventRing.DrainIsTakes` | src/Drivers/USB/xHCI/xHCI_rings.cpp:73-115 | the slots a drain takes are those of the waiting events from the front |
| `Crc32.ComputeCrc32` | src/Drivers/fs/partition/partition_manager.cpp:7-19 | the loops compute the checksum function |
| `CrcPolynomial.ChecksumIs` | src/Drivers/fs/partition/partition_manager.cpp:7-19 | for every message the checksum is the complement of the reflected remainder, by long division over GF(2), of the message with its first 32 bits inverted times x^32 |
| `CrcPolynomial.PolynomialBits` | src/Drivers/fs/partition/partition_manager.cpp:14 | the constant is x^32 + x^26 + x^23 + x^22 + x^16 + x^12 + x^11 + x^10 + x^8 + x^7 + x^5 + x^4 + x^2 + x + 1, reflected |
| `CrcPolynomial.DivideByte` | src/Drivers/fs/partition/partition_manager.cpp:12-16 | a byte of the message is eight steps of the division |
| `CrcPolynomial.BitsDetermine` | src/Drivers/fs/partition/partition_manager.cpp:18 | a word is determined by its bits |
| `Crc32.ProcessByte` | src/Drivers/fs/partition/partition_manager.cpp:12-16 | eight bit steps |
| `Crc32.ProcessLinear` | src/Drivers/fs/partition/partition_manager.cpp:11-17 | the difference of two checksums depends on the difference of the messages alone |
| `Crc32.WindowWord` | src/Drivers/fs/partition/partition_manager.cpp:11-17 | up to four bytes act as one little-endian word |
| `Crc32.BurstDetected` | src/Drivers/fs/partition/partition_manager.cpp:7-19 | messages of one length that differ only inside four consecutive bytes have equal checksums exactly when they are equal |
| `Crc32.BurstExact` | src/Drivers/fs/partition/partition_manager.cpp:7-19 | every message has unnoticed damage in a window exactly when the window is longer than four bytes |
| `Crc32.SteerIs` | src/Drivers/fs/partition/partition_manager.cpp:11-17 | four bytes lead from any state to any other |
| `Gpt.ValidateGpt` | src/Drivers/fs/partition/partition_manager.cpp:116-137 | accepts exactly what the specification accepts, the memory read behind the copy for a header_size above 92 included |
| `Gpt.AcceptedMeans` | src/Drivers/fs/partition/partition_manager.cpp:116-137 | accepted means: EFI PART, the checksum of header_size bytes with its own field zeroed, and block number 1 |
| `Gpt.FieldOffsets` | src/Drivers/fs/partition/gpt_partition.h:5-20 | the fields looked at are where the sizes of the fields before them put them |
| `Gpt.AcceptedInside` | src/Drivers/fs/partition/partition_manager.cpp:122-124 | while header_size stays inside the structure nothing behind it plays a part |
| `Gpt.HeaderDamageRejected` | src/Drivers/fs/partition/partition_manager.cpp:116-137 | damage of up to four consecutive covered bytes away from the checksum, header_size unchanged, is rejected |
| `Gpt.ChecksumDamageRejected` | src/Drivers/fs/partition/partition_manager.cpp:122-129 | so is any change of the checksum field alone |
| `Gpt.SizeDamagePasses` | src/Drivers/fs/partition/partition_manager.cpp:122-129 | every valid header that covers 92 bytes and stores checksum 0 is accepted with header_size zeroed |
| `Gpt.FullValid` | src/Drivers/fs/partition/partition_manager.cpp:116-137 | there is such a header |
| `Gpt.WindowProtected` | src/Drivers/fs/partition/partition_manager.cpp:116-137 | for headers that cover 92 bytes, damage in a window is always rejected exactly when the window does not meet header_size |
| `Gpt.ValidateEntries` | src/Drivers/fs/partition/partition_manager.cpp:139-148 | accepts exactly the arrays with the stored checksum, the size taken in 32 bits |
| `Gpt.EntriesMean` | src/Drivers/fs/partition/partition_manager.cpp:139-148 | an accepted array has the stored checksum and covers all entries exactly when they take less than 4 GB |
| `Gpt.EntryDamageRejected` | src/Drivers/fs/partition/partition_manager.cpp:139-148 | an entry array damaged inside four consecutive bytes is rejected |
| `Scheduler.Scheduler.PickNextRunnable` | src/kernel/Process/Process_manager.cpp:55-66 | the search of the specification |
| `Scheduler.PickNearest` | src/kernel/Process/Process_manager.cpp:55-66 | the pick is runnable and no runnable thread is nearer in the round |
| `Scheduler.PickNone` | src/kernel/Process/Process_manager.cpp:55-66 | without a runnable thread there is no pick |
| `Scheduler.PickStates` | src/kernel/Process/Process_manager.cpp:55-66 | the pick is the next ready or running thread in the round, and there is none exactly when all are blocked or terminated |
| `Scheduler.Scheduler.DoSchedule` | src/kernel/Process/Process_manager.cpp:68-82 | saves the frame, switches to the pick, clears its work and returns its frame |
| `Scheduler.Scheduler.ExitCurrent` | src/kernel/Process/Process_manager.cpp:84-98 | terminates the thread, switches without clearing work and restores the pick's frame |
| `Scheduler.Scheduler.TimerInterrupt` | src/arch/x86_64/IDT/handlers.cpp:107-116 | counts a byte of work and schedules at the end of the turn |
| `Scheduler.TickCounts` | src/arch/x86_64/IDT/handlers.cpp:107-116 | a turn lasts exactly the ticks left to it, at most 256, because work wraps |
| `Scheduler.ScheduledTurn` | src/kernel/Process/Process_manager.cpp:68-82 | a turn begun by schedule lasts max(1, priority) ticks |
| `Scheduler.SavedFrames` | src/kernel/Process/Process_manager.cpp:68-82 | over every run a thread that is not running and has not terminated has the frame saved with which it was last left |
| `Scheduler.TickResumes` | src/kernel/Process/Process_manager.cpp:68-82 | a tick that switches returns the frame with which its choice was last left, its first frame the first time; a tick that does not returns the interrupted frame |
| `Scheduler.TurnSaves` | src/kernel/Process/Process_manager.cpp:68-70 | the end of a turn saves the interrupted frame, whoever is chosen |
| `Scheduler.KeepsFrame` | src/kernel/Process/Process_manager.cpp:68-82 | a thread switched away from keeps its frame while others run |
| `Scheduler.ExitResumes` | src/kernel/Process/Process_manager.cpp:84-98 | so does exit_current restore it, and it changes no thread but the one it terminates |
| `Scheduler.SelectionApproaches` | src/kernel/Process/Process_manager.cpp:55-66 | every selection that is not a waiting thread's brings it nearer |
| `Scheduler.EventApproaches` | src/kernel/Process/Process_manager.cpp:55-100 | so does every event, counted in selections and in ticks |
| `Scheduler.BoundedWaiting` | src/kernel/Process/Process_manager.cpp:55-100 | a thread that stays runnable is passed over by fewer than n - 1 selections and waits fewer than 256 (n - 1) ticks, whatever the others do, while a thread is running |
| `Scheduler.ExitHalts` | src/kernel/Process/Process_manager.cpp:84-92 | exit_current gives up exactly when no other thread is runnable |
| `Scheduler.HaltedForGood` | src/kernel/Process/Process_manager.cpp:68-92 | after that no tick selects a thread, whichever become runnable |
| `Scheduler.NeverSelected` | src/kernel/Process/Process_manager.cpp:68-92 | a blocked thread that becomes runnable after the halt is never selected |
| `Tcp.TcpStack.FindSocketConnection` | src/Drivers/Network/Sockets/tcp_socket.cpp:105-111 | the first socket of that connection, none exactly when there is none |
| `Tcp.TcpStack.FindSocketListener` | src/Drivers/Network/Sockets/tcp_socket.cpp:97-103 | the first listener on the port |
| `Tcp.TcpStack.CreateSocket` | src/Drivers/Network/Sockets/tcp_socket.cpp:113-123 | a new socket with the least unused number below 128, or -1 |
| `Tcp.TcpStack.ListenOn` | src/Drivers/Network/Sockets/tcp_socket.cpp:10-21 | a new listener on the port under the least unused number |
| `Tcp.TcpStack.RemoveSocket` | src/Drivers/Network/Sockets/tcp_socket.cpp:79-87 | the first socket with the number is destroyed |
| `Tcp.TcpStack.ReceiveTcp` | src/Drivers/Network/IPv4/TCP.cpp:25-104 | the whole new state is the step function's |
| `Tcp.TcpStack.UpdateConnection` | src/Drivers/Network/IPv4/TCP.cpp:25-86 | payload, FIN, ACK, repeated SYN and handshake in the code's order give the connection the step function gives |
| `Tcp.TcpStack.AcceptConnection` | src/Drivers/Network/Sockets/tcp_socket.cpp:23-31 | takes the newest pending connection |
| `Tcp.TcpStack.CloseConnection` | src/Drivers/Network/Sockets/tcp_socket.cpp:67-76 | an established connection sends its FIN, any other is removed |
| `Tcp.TcpStack.CloseListener` | src/Drivers/Network/Sockets/tcp_socket.cpp:54-65 | a listener closes its pending connections in order and is removed |
| `TcpRuns.ReceivedOk` | src/Drivers/Network/IPv4/TCP.cpp:25-86 | a segment moves a connection along one edge of an acyclic relation or not at all, and completes a handshake only with ack 1001 |
| `TcpRuns.RecvAdvances` | src/Drivers/Network/IPv4/TCP.cpp:26-56 | recv_seq advances by the segment's length exactly when there is no payload, or one below 8197 bytes and no FIN beside it |
| `TcpRuns.SendKeeps` | src/Drivers/Network/Sockets/tcp_socket.cpp:33-38 | sending on an accepted connection keeps send_seq at 1001 + bytes sent + FIN modulo 2^32, and every other socket as it is |
| `TcpRuns.CloseListenerKeeps` | src/Drivers/Network/Sockets/tcp_socket.cpp:54-65 | closing a listener, which removes sockets from the vector while it walks its own list, keeps the invariant and moves each connection by at most one edge |
| `TcpRuns.NumbersRunOut` | src/Drivers/Network/Sockets/tcp_socket.cpp:113-123 | there are never more than 128 sockets, and socket() fails exactly at 128 |
| `TcpRuns.NullExactly` | src/Drivers/Network/IPv4/TCP.cpp:88-96 | the null socket is met exactly by a SYN of a new connection to a listener while all 128 sockets exist |
| `TcpRuns.NullReached` | src/Drivers/Network/IPv4/TCP.cpp:88-96 | one listener and 127 SYNs from different ports are a run that leads there |
| `TcpRuns.ZeroReachesListeners` | src/Drivers/Network/Sockets/tcp_socket.cpp:105-111 | a segment from address 0 and port 0, which every listener matches, opens and closes nothing and completes no handshake |
| `TcpRuns.EventKeeps` | src/Drivers/Network/IPv4/TCP.cpp:25-104 | every segment that does not meet the null socket and every system call keeps the invariant of all sockets and moves each connection only forward |
| `TcpRuns.RunClimbs` | src/Drivers/Network/IPv4/TCP.cpp:25-104 | over a whole run a connection never returns to a state it has left, and its counters never fall |
| `TcpRuns.GoneForGood` | src/Drivers/Network/Sockets/tcp_socket.cpp:79-87 | a removed socket does not come back |
| `TcpRuns.ReachableSockets` | src/Drivers/Network/IPv4/TCP.cpp:25-104 | numbers distinct and below 128, one socket per connection, at most one join and one FIN, send_seq = 1001 + sent + FIN modulo 2^32 from ESTABLISHED on, pending lists name live sockets once |
| `TcpRuns.RemoveKeeps` | src/libs/std/vector.hpp:82-91 | removal by swapping keeps the invariant and drops exactly the socket meant |
| `TcpConnect.SegmentMoves` | src/Drivers/Network/IPv4/TCP.cpp:25-86 | the exact next record for every state, payload, SYN, FIN, ACK and ack number |
| `TcpConnect.SynOpens` | src/Drivers/Network/IPv4/TCP.cpp:88-101 | a SYN for a listener opens exactly one socket with the sender's ends, the least unused number and recv_seq = seq + 1 |
| `TcpConnect.AckCompletes` | src/Drivers/Network/IPv4/TCP.cpp:75-84 | the ACK of 1001 establishes the connection and puts it last on the first listener's list |
| `TcpConnect.Handshake` | src/Drivers/Network/IPv4/TCP.cpp:25-104 | a SYN and an empty ACK of 1001 leave an established connection with these ends, last on the list, that accept returns; all other sockets stay |
| `TcpConnect.AcceptTakes` | src/Drivers/Network/Sockets/tcp_socket.cpp:23-31 | accept returns the newest pending connection and takes it off the list, or changes nothing |
| `TcpConnect.OpenPortDoes` | src/Drivers/Network/Sockets/tcp_socket.cpp:10-21 | one listener is added under the least unused number while there is one |
| `TcpConnect.SocketDoes` | src/Drivers/Network/Sockets/tcp_socket.cpp:113-123 | socket() adds one closed socket under the least unused number, or nothing when there are 128 |
| `TcpConnect.CloseEstablished` | src/Drivers/Network/Sockets/tcp_socket.cpp:67-74 | the FIN takes one number and the state becomes FIN_WAIT_1, nothing else changes |
| `TcpConnect.CloseOther` | src/Drivers/Network/Sockets/tcp_socket.cpp:67-76 | a connection in any other open state is removed, alone |
| `TcpConnect.CloseListenerDoes` | src/Drivers/Network/Sockets/tcp_socket.cpp:54-65 | the listener goes, established connections of its list send a FIN, the others of the list go, and no other socket changes |
| `Receive.RingBuffer.Push` | src/libs/std/Ring_Buffer.hpp:26-32 | appends, refused exactly when all places but one are taken |
| `Receive.RingBuffer.Pop` | src/libs/std/Ring_Buffer.hpp:34-39 | takes the oldest element |
| `Receive.QueuePayload` | src/Drivers/Network/IPv4/TCP.cpp:26-34 | the payload is queued while fewer than 127 are |
| `Receive.RecvInto` | src/Drivers/Network/Sockets/tcp_socket.cpp:40-52 | copies the front of the oldest payload and drops the rest of it |
| `Receive.Delivered` | src/Drivers/Network/Sockets/tcp_socket.cpp:40-52 | over every run the acknowledged bytes are those given and queued, in order, exactly when no payload met a full queue and no read was too short |
| `Checksum.Compute` | src/Drivers/Network/Common.cpp:55-75 | the loops return the complement of the folded 32-bit sum |
| `Checksum.FoldComplement` | src/Drivers/Network/Common.cpp:69-74 | the folding loop ends with the one word that equals the sum modulo 65535 and is zero only with it |
| `Checksum.OrderIndependent` | src/Drivers/Network/Common.cpp:55-75 | the native result stored natively is the RFC 1071 checksum of the network-order words |
| `Checksum.InsertedChecks` | src/Drivers/Network/Common.cpp:55-75 | inserted in its zeroed, 16-bit-aligned field it makes the checksum of the whole zero |
| `Checksum.WordDamage` | src/Drivers/Network/Common.cpp:55-75 | a changed word is noticed, except exactly 0000 against FFFF beside other nonzero words |
| `Checksum.SumExact` | src/Drivers/Network/Common.cpp:58-67 | up to 131074 bytes the 32-bit sum does not overflow |
| `Checksum.SumRight` | src/Drivers/Network/Common.cpp:58-74 | for every length an int holds the result is right exactly when the sum fits in 32 bits |
| `Checksum.ExactIsSharp` | src/Drivers/Network/Common.cpp:58-74 | with two bytes more the checksum of all-ones data is wrong |
| `Checksum.ComputePseudo` | src/Drivers/Network/Common.cpp:77-95 | the swapped native stores are the network-order pseudo header, and 0 is sent as FFFF |
| `Checksum.PseudoChecks` | src/Drivers/Network/Common.cpp:77-95 | the result is never zero, and a receiver of pseudo header and filled datagram computes zero |
| `Vector.Vector.PushBack` | src/libs/std/vector.hpp:130-136 | appends one element; a full block doubles and moves |
| `Vector.Vector.Reserve` | src/libs/std/vector.hpp:115-128 | moving to a larger block keeps the contents |
| `Vector.Vector.SwapRemove` | src/libs/std/vector.hpp:82-91 | the last element takes the removed one's place |
| `Vector.SwapRemovedIs` | src/libs/std/vector.hpp:82-91 | exactly one element is lost |
| `Vector.Vector.Erase` | src/libs/std/vector.hpp:75-80 | removes one element and keeps the order |
| `HashMap.HashMap.Find` | src/libs/std/hash_map.hpp:72-81 | agrees with the finite map for every hash function |
| `HashMap.HashMap.Insert` | src/libs/std/hash_map.hpp:47-57 | updates the finite map at the key, with every entry in its bucket and keys unique |
| `HashMap.HashMap.Erase` | src/libs/std/hash_map.hpp:59-70 | removes the key |
| `HashMap.HashMap.Index` | src/libs/std/hash_map.hpp:98-104 | operator[] adds a blank value for a missing key only |
| `HashMap.HashMap.Size` | src/libs/std/hash_map.hpp:114-119 | the number of keys of the map |
| `HashMap.HashMap.Clear` | src/libs/std/hash_map.hpp:121-124 | the empty map |
| `HashMap.HashMap.Advance` | src/libs/std/hash_map.hpp:140-145 | skipping empty buckets passes no entry |
| `HashMap.HashMap.Next` | src/libs/std/hash_map.hpp:150-154 | operator++ moves one entry on in the order of iteration |
| `HashMap.HashMap.Visit` | src/libs/std/hash_map.hpp:133-161 | a walk from begin to end ends and sees every key once, with its value |
| `HashMap.ModelAt` | src/libs/std/hash_map.hpp:72-81 | a key is in the map exactly when it is in its own bucket |
| `HashMap.FlatMaps` | src/libs/std/hash_map.hpp:133-161 | the order of iteration holds every key of the map once |

## Left out

- AlignedHeap.BoundryExact: heaps that straddle 2^63, where an alignment and a boundary of 2^63 can be served by chance.
- AlignedRuns.RunKeeps: requests whose sum is above 2^64 - 16 or whose alignment is no power of two; the word they store may hit anything.
- PageTables.PageTables.AllocPage: when the heap is full the source writes zeroes through a null page; the model stops and reports it.
- PageTables.PageTables.MapMemoryVp: flag words with bits 12 to 62 set and frames past 2^52, which do not fit an entry beside each other.
- PageTables.PageTables.MapMemory: ranges past 2^52, and ranges longer than 2^48, where page numbers repeat within one call.
- Heap.Heap.constructor: a heap at address 0 or one that reaches 2^64; the boot code places it in the direct map.
- Heap headers, the words in front of aligned pointers and the words of page tables are kept in three maps; that they do not overlap in memory is what `HeapRuns.Safety`, `AlignedRuns.Safety` and `PageTables.NewPage` state.
- Fat.FileSystem.SetNextCluster: how `mount` derives `max_cluster` from the 16-bit total sector count; here it is a parameter.
- FatUpdate.UpdateTables: entries behind the table, for which `UpdateConfined` says what goes wrong.
- Fat.FileSystem.FindFreeCluster: sector sizes that are no multiple of 4, and tables of more than 2^32 entries.
- File.File.Write: start sectors that reach 2^64 and offsets that reach 2^32; the sector size of the volume and of the device are the same.
- Disk: commands succeed or fail sector by sector; command slots, completion and error recovery are not modelled, and a failing allocation of the sector buffer is not.
- Prdt.BuildWrite: sector sizes above 8192, for which the source divides by zero. The command FIS is not modelled.
- ProducerRing.ProducerRing.Enqueue: the 16 bytes of a TRB are stored in one step. `can_enqueue` is left out; it does not describe the real capacity.
- ProducerRing.Fifo: producers that put a TRB while N - 1 are outstanding, which overwrites one; the code has no check.
- EventRing.ReadsInOrder: reads in the order of the events; completion events are read later, out of that order, and `ReadableExactly` says until when they can be.
- TcpRuns.SendKeeps: sends and closes on connections that are still pending; a caller has no pointer to them.
- Tcp.TcpStack.CloseListener: pending pointers to sockets that are gone or to listeners are skipped; no reachable state has any.
- Tcp.TcpStack.ListenOn: socket, bind and listen are one step.
- TCP retransmission, windows and reordering do not exist in the code.
- Receive.QueuePayload: a failing allocation of the payload's copy.
- Scheduler: registers, kernel stacks and the creation of threads while others run; the frame is a number.
- Checksum.ComputePseudo: datagrams that with the pseudo header exceed 65535 bytes, whose buffer size the code truncates, and a failing allocation of that buffer.
- HashMap.HashMap.Insert: copying, moving and destroying values; buckets are the sequences that `Vector` represents.
- memset, memset16 and memcmp: plain loops over bytes and words.
- FAT long names, directories, timestamps, mounting, and cluster allocation on write, which the code does not do.
- Port and memory-mapped I/O, interrupt setup, enumeration of USB devices, graphics, the shell and the user programs.
