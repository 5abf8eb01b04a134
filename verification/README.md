# Memory, paging and FAT file access of a small 32-bit kernel

This project models the parts of the kernel in which state is shared between layers, and proves what each layer keeps.

**The three-layer allocator.** `PageHeap.Heap` is the first-fit allocator of 4 KiB pages, whose only bookkeeping is a byte
per page; `Heap32` cuts a page into a table of 124 tags and 124 blocks of 32 bytes; `HeapCream.Cream` keeps the array
`mothermary` of such pages. All three work on one `array<byte>`, the RAM, in which tags, page headers, `mothermary`
words and page tables lie at their real addresses. `TagTable` says what a tag table means (a set of extents) and
`SlabMachine` is the allocator as a state machine on values; the classes are proved to take exactly its steps, and
`SlabTheorems` and `SlabRuns` prove what every step and every run keeps.

**Paging.** `Paging` builds the page directory in pages of that allocator. `Walk` is the translation of 32-bit paging with
4 KiB pages (Intel SDM Volume 3A, section 4.3). `Startup` follows the order of `kernel_main`: page tables first, then the
slab layer, then any sequence of requests, through which every address stays mapped to itself.

**FAT16.** `FatChain` is the theory of cluster chains of one table. `FreeCluster` (get_free_cluster), `Fat16Read` and
`Fat16Write` are the imperative code on `Disk.Device`, a sequence of 512-byte sectors; `FatTable`, `Volume`,
`Fat16State` and `Fat16WriteSteps` connect sectors with tables, chains and file contents, and `Fat16Theorems` says what
one write, and any sequence of writes, means to every file of the volume and to later reads. `Fat16OnDisk` says the same
once more in plain arithmetic on sectors and bytes, without the functions that the code is specified by. `Fat16Examples`
holds two runs on a small volume. Entries and chains are those of section 4 of the
Microsoft FAT Specification (2005).

**Smaller parts.** `DiskStream` reads byte ranges of a disk; `Fat12` and `Fat12File` decode packed 12-bit entries and read a
file through its chain.

`Bytes`, `Bits`, `Products` and `Memory` hold machine integers, bitwise operators, products by a variable, and 32-bit
words in RAM. 32-bit and 16-bit wrap-around is written out for sizes, counts, offsets, addresses and table words; the
sector numbers that the file code adds up are unbounded (see Left out).

`dafny verify dfyconfig.toml` checks the whole project.

## What the code does that its comments or names do not say

- `write_fat16` does not extend a chain: where the chain ends it hands the end marker, not the previous cluster, to
  `get_free_cluster` (lines 443-450), although lines 396-398 say that the last entry is changed to the new cluster. The
  bytes behind the end go to clusters that no entry leads to. `GrowthUnlinked` and `ReadBack` give the exact condition:
  the data comes back if and only if the range ends inside the chain. In `GrowthLost` 1024 bytes are written and 512 come
  back.
- The size that `write_fat16` records is the larger of the old size and the number of bytes of this call, not the
  position reached. That is the end of the file if and only if the call began at offset 0 or ended inside the old size
  (`SizeRight`, and `WriteFat16` itself); `SizeTooSmall` records 1 for a byte at offset 100.
- `kzalloc` clears the bytes asked for and not the page, and the slab layer asks for 1 byte. That its new pages are clean
  all the same is an invariant over runs (`RunClean`).
- `set_table_val` reports failure with a positive code, for which `malloc_32` tests with `< 0`; the failing branches
  are unreachable from `malloc_32`, because `get_index` returns only free runs.
- A slab request of 0 bytes fails, but registers an empty page. Hence the bound on pages holds for runs without such
  requests (`RunOccupied`); `EmptyPageReachable` is a run of two steps that breaks it.
- `heap_cream_kill` leaves a zero slot, and both scans stop at the first zero slot. Pages behind it stay safe, but their
  blocks cannot be freed (`HiddenNotFreeable`, `FreeHidesLaterPages`); `HiddenBlockReachable` is a run that gets there.
- `set_page_table_enrty` reports success also where the directory has no table; it then overwrites the word of that
  index in physical page 0 (`Paging.SetPageTableEntry`). `EntryWithoutTable` is such a call.
- `get_bytes_from_disk` copies less than asked for if `no_bytes + pos % 512` exceeds 32 bits (`CopiedAll`);
  `OverflowCopiesLess` gives a range of which one byte arrives.
- `heap_create` compares with a signed pointer difference, so that from a span of 2 GiB on the table would have to have
  0xFFF00000 entries more than the span has pages (`PagesBetweenMeaning`).

## Model

| member | source | states |
|---|---|---|
| TagTable.WellFormedIsGrammar | src/kernel/heap/heap.c:65-114 | the tag tables that malloc and free work on are exactly the words of {free, single, start mid* end} |
| TagTable.FlattenInjective | src/kernel/heap/heap.c:65-114 | every such word is read in one way only |
| TagTable.ExtentsDisjoint | src/kernel/heap/heap.c:65-90 | two live extents of a well-formed table never share a unit |
| TagTable.ExtentsDetermineTable | src/kernel/heap/heap.c:65-114 | tag tables of one size with the same live extents are equal: the abstraction loses nothing |
| TagTable.PlaceMeaning | src/kernel/heap/heap.c:65-90 | allocation fails if and only if nothing is asked for or no free run is long enough, and then changes nothing; otherwise it adds one extent of the length asked for, at the lowest place that fits, disjoint from all others |
| TagTable.PlaceBytes | src/kernel/heap/heap.c:75-83 | the tag bytes of a new extent: 0x41, or 0xc1, 0x81 in between and 0x01, where zeros were; no other tag changes |
| TagTable.ReleaseMeaning | src/kernel/heap/heap.c:92-114 | freeing succeeds exactly on the start of a live extent and removes that extent and no other; elsewhere nothing changes |
| TagTable.PlaceRelease | src/kernel/heap/heap.c:65-114 | freeing what was just allocated gives back the identical table |
| TagTable.Conservation | src/kernel/heap/heap.c:65-114 | free tags plus the lengths of the live extents are always the size of the table |
| TagTable.ReleaseAllEmpties | src/kernel/heap/heap.c:92-114 | freeing the live extents one by one, in any order, ends with the all-free table |
| TagTable.SingleFits | src/kernel/heap/heap.c:37-64 | a request for one unit succeeds if and only if some unit is free |
| PageHeap.BlockCountMeaning | src/kernel/heap/heap.c:69-69 | pages for a request are its size rounded up; the 32-bit sum wraps to a count of 0 exactly for the sizes above 2^32 - 4096 |
| PageHeap.Heap.PagesBetweenMeaning | src/kernel/heap/heap.c:13-13 | the signed difference over the page size, as an unsigned count, is the pages of the span exactly below 2 GiB |
| PageHeap.Heap.Create | src/kernel/heap/heap.c:7-36 | succeeds if and only if both ends are aligned and the table has as many entries as that count; then, below 2 GiB, all tags are free; otherwise no byte changes |
| PageHeap.Heap.GetStartBlock | src/kernel/heap/heap.c:37-64 | the nested scan finds the lowest run of that many free tags, or none if and only if there is none, a count of 0 included |
| PageHeap.Heap.Malloc | src/kernel/heap/heap.c:65-90 | places the extent as specified and returns the address of its first page; writes only the tag table |
| PageHeap.Heap.Free | src/kernel/heap/heap.c:92-114 | releases the extent that starts at the page of the address; writes only the tag table |
| Heap32.BlocksMeaning | src/kernel/heap/heap32.c:75-75 | 1 to 3968 bytes need 1 to 124 blocks, and not one more than needed |
| Heap32.TableGuardSet | src/kernel/heap/heap32.c:4-11 | sets the four guard bytes behind the tags and nothing else |
| Heap32.GetIndex | src/kernel/heap/heap32.c:12-41 | the lowest index that starts a run of that many free tags, or -1 if and only if there is none, though the inner loop moves the outer index |
| Heap32.SetTableVal | src/kernel/heap/heap32.c:42-71 | reports success if and only if the whole run is free, and then the run is marked; writes only tags |
| Heap32.Malloc32 | src/kernel/heap/heap32.c:72-92 | the first-fit placement in the page's table and the address of its block, which lies behind byte 128 and with all requested bytes in the page |
| Heap32.Free32 | src/kernel/heap/heap32.c:93-155 | in a well-formed page, releases exactly the run based at the address and otherwise leaves the table alone; foreign and misaligned addresses are refused |
| KernelHeap.Kernel.Init | src/kernel/heap/kheap.c:8-15 | the kernel heap starts with 25600 free pages |
| KernelHeap.Kernel.Kmalloc | src/kernel/heap/kheap.c:17-20 | the placement in the kernel heap's tags, and an address that is page-aligned, inside the heap with all requested bytes, and that of the page placed |
| KernelHeap.Kernel.Kzalloc | src/kernel/heap/kheap.c:22-28 | as kmalloc, with the requested bytes cleared, and only those |
| KernelHeap.Kernel.Kfree | src/kernel/heap/kheap.c:30-33 | on the address of a live extent, that extent and no other is gone; writes nothing but tags |
| HeapCream.Cream.HelpMeMaryMotherOfGod | src/kernel/heap/heap_cream.c:9-12 | takes a page for the array; all its slots read zero, although only one byte was cleared |
| HeapCream.Cream.Malloc | src/kernel/heap/heap_cream.c:19-51 | the bytes in RAM take exactly the step of the state machine, invariant included; above 3968 bytes NULL is returned and nothing changes; any other pointer is the base of the one new live block, large enough for the request, aligned and inside its page behind the header; a page added has its guard bytes; no page of others is written |
| HeapCream.Cream.HeapCreamKill | src/kernel/heap/heap_cream.c:54-58 | gives the page of a slot back and zeroes the slot |
| HeapCream.Cream.HeapCreamSingleChkKill | src/kernel/heap/heap_cream.c:78-90 | does so if and only if all 124 tags of the page are free |
| HeapCream.Cream.Free | src/kernel/heap/heap_cream.c:92-121 | the bytes in RAM take exactly the step of the state machine, for every pointer whatever, and no page of others is written |
| HeapCream.Cream.constructor | src/kernel/kernel.c:156-177 | the slab layer may start on a heap that is in use already: what others hold is kept, and the invariant holds |
| HeapCream.Cream.StoreInBlock | src/kernel/heap/heap_cream.c:19-51 | a client that writes inside its live block disturbs no layer |
| HeapCream.Cream.StoreInKept | src/kernel/heap/kheap.c:17-20 | the same for pages obtained with kmalloc |
| SlabTheorems.MallocFails | src/kernel/heap/heap_cream.c:19-51 | a request of any size fails if and only if it asks for nothing, for more than 3968 bytes, or no page before the first zero slot has room and all slots are used or no page is free |
| SlabTheorems.MallocRefuses | src/kernel/heap/heap_cream.c:23-27 | above 3968 bytes every request is refused and changes nothing |
| SlabTheorems.MallocBlock | src/kernel/heap/heap_cream.c:28-50 | the address returned is the base of the new block, which is the smallest that holds the request |
| SlabTheorems.MallocFirstFit | src/kernel/heap/heap_cream.c:28-50 | the block goes to the first slot whose page has room, at the lowest run there, all slots before it being in use and full; a page added is the lowest free one |
| SlabTheorems.BlockInPage | src/kernel/heap/heap32.c:90-90 | in plain numbers, a block starts at a multiple of 32 behind the 128 bytes of the header and ends in its page |
| SlabTheorems.PageTiled | src/kernel/heap/heap32.h:16-19 | header and 124 blocks of 32 bytes fill a page exactly, one behind the other |
| SlabTheorems.KmallocMeaning | src/kernel/heap/kheap.c:17-20 | kmalloc keeps the lowest run of free pages that fits, or changes nothing; the slab layer is not concerned |
| SlabTheorems.MallocMeaning | src/kernel/heap/heap_cream.c:19-51 | a successful request adds exactly one new live block of the right length; a failing one adds none |
| SlabTheorems.MallocInv | src/kernel/heap/heap_cream.c:19-51 | the ownership invariant over both layers is kept |
| SlabTheorems.FreeInv | src/kernel/heap/heap_cream.c:92-121 | the ownership invariant over both layers is kept, whatever pointer is passed |
| SlabTheorems.FreeSucceeds | src/kernel/heap/heap_cream.c:92-121 | freeing returns true if and only if the pointer is the base of a live block in a page before the first zero slot; otherwise nothing changes |
| SlabTheorems.FreeMeaning | src/kernel/heap/heap_cream.c:78-121 | exactly that block disappears, and its page is returned if and only if it was the last block in it |
| SlabTheorems.MallocThenFree | src/kernel/heap/heap_cream.c:19-121 | a fresh block can always be freed, and that restores the set of live blocks |
| SlabRuns.RegionsDisjoint | src/kernel/heap/heap_cream.c:19-121 | kmalloc extents, slab headers, live blocks and the mothermary page never overlap and lie in the heap, hidden pages included |
| SlabRuns.PageAccounting | src/kernel/heap/heap_cream.c:42-58 | free pages, kmalloc pages, slab pages and the array's page add up to all pages of the heap |
| SlabRuns.RunInv | src/kernel/heap/heap_cream.c:19-121 | after every run from boot each page extent has exactly one owner, slab pages are single pages, and all tag tables are well formed |
| SlabRuns.RunSafe | src/kernel/heap/heap_cream.c:19-121 | after every run from boot no two regions in use overlap, and all lie in the heap |
| SlabRuns.RunAccounts | src/kernel/heap/heap_cream.c:42-58 | after every run from boot the pages add up |
| SlabRuns.RunClean | src/kernel/heap/kheap.c:22-28 | after every run from boot every free page has an all-zero table, so that every page the slab layer registers starts with 124 free blocks |
| SlabRuns.RunOccupied | src/kernel/heap/heap_cream.c:54-121 | in every run without requests of 0 bytes each registered page holds a live block, so pages never outnumber blocks |
| SlabRuns.EmptyPageReachable | src/kernel/heap/heap_cream.c:42-50 | without that condition it fails: a run of two steps has more slab pages than live blocks |
| SlabRuns.HiddenNotFreeable | src/kernel/heap/heap_cream.c:104-104 | a live block in a page behind a zero slot cannot be freed |
| SlabRuns.FreeHidesLaterPages | src/kernel/heap/heap_cream.c:54-58 | freeing the last block of a page makes the blocks of all later slots unfreeable, yet keeps them live |
| SlabRuns.HiddenBlockReachable | src/kernel/heap/heap_cream.c:54-121 | a run from boot that reaches such a state |
| Paging.IndexBijection | src/kernel/paging/paging.c:85-86 | aligned addresses and index pairs below 1024 correspond one to one |
| Paging.GetIndexFromVirt | src/kernel/paging/paging.c:80-90 | refuses exactly the unaligned addresses and otherwise computes the two indices |
| Paging.FillTable | src/kernel/paging/paging.c:53-57 | the i-th table maps the i-th 4 MiB to itself; the running offset wraps only after the last entry; no other page is written |
| Paging.EntryBits | src/kernel/paging/paging.c:50-55 | each entry written, bit by bit: present and writable set, bits 2 to 11 those of the flags, the frame's above |
| Paging.Create32DirTable | src/kernel/paging/paging.c:9-66 | null if and only if no page is free; otherwise min(1025, free) pages become extents of their own, no other tag and no other page changes, and an address is mapped to itself, writable, if there was a page for its table, else not at all |
| Paging.TookExtents | src/kernel/paging/paging.c:15-50 | in terms of extents: exactly one single-page extent for each page of the address space is added |
| Paging.CreateOnFreshHeap | src/kernel/paging/paging.c:9-66 | on a fresh heap all 1025 requests succeed and every 32-bit address is mapped to itself |
| Paging.SetPageTableEntry | src/kernel/paging/paging.c:91-99 | the walks of exactly one 4 KiB page change, to what the new entry says, only that one word of memory changes, and the directory stays proper; unaligned addresses are refused; without a table the word is in physical page 0 and no walk changes |
| Paging.EntryWithoutTable | src/kernel/paging/paging.c:91-99 | a heap on which setting an entry reports success and yet no address is mapped |
| Paging.EntryMaps | src/kernel/paging/paging.c:97-97 | with an aligned frame and flags below 0x1000 that include the present bit the page is mapped to that frame |
| Paging.OrWordsBits | src/kernel/paging/paging.c:97-97 | the word written, bit by bit, for any frame word and flags |
| Paging.EntryPresent | src/kernel/paging/paging.c:97-97 | the entry maps the page if and only if frame word or flags have the present bit; writable alike |
| Paging.EntryFrame | src/kernel/paging/paging.c:97-97 | the frame mapped to has the bits from 12 on of either word |
| Startup.ForeignStays | src/kernel/heap/heap_cream.c:19-121 | a page that others hold is never given back or registered by a step of the allocator |
| Startup.Serve | src/kernel/heap/heap_cream.c:19-121 | through any sequence of slab requests, frees and kmalloc calls every address is translated as before |
| Startup.Boot | src/kernel/kernel.c:156-177 | after kheap_init, create_32_dir_table and help_me_mary_mother_of_god the allocator is valid and every address is mapped to itself |
| Startup.BootAndServe | src/kernel/kernel.c:156-177 | from power-up through any sequence of requests every 32-bit address stays mapped to itself |
| Bpb.ParsesCarried | src/kernel/file_syst/fat16.c:50-80 | a sector that carries a parameter block, each field at its place and low byte first, parses to exactly its fields, and is refused if and only if the sector size is none of the four or one of the three counts is zero |
| Bpb.EverySectorCarries | src/kernel/file_syst/fat16.c:50-72 | every sector carries a block, so that this holds of every sector |
| Bpb.Encode | src/kernel/file_syst/fat16.c:50-72 | any block can be written into any sector, which changes only its bytes |
| Bpb.ParsePartition | src/kernel/file_syst/fat16.c:41-87 | parses the first sector of the partition; none if it is not on the disk |
| Bpb.ParseRegions | src/kernel/file_syst/fat16.c:50-80 | in every accepted volume, modulo 2^32, tables, root directory and data follow one another without gap, and the data region starts where read and write look for it |
| Bpb.ParseRegionsPlain | src/kernel/file_syst/fat16.c:73-80 | the same in plain arithmetic, where no sector number overflows |
| Fat16State.ParsedSound | src/kernel/file_syst/fat16.c:41-87 | an accepted boot sector with 512-byte sectors, on a disk that holds its regions, gives a volume fit for reading and writing |
| Fat16OnDisk.LayoutIs | src/kernel/file_syst/fat16.c:532-533 | table and data region start at the sectors that the fields give, and a cluster has sectPerClust sectors |
| Fat16OnDisk.ClustersAdjoin | src/kernel/file_syst/fat16.c:577-581 | cluster 2 starts the data region and each cluster begins where the one before it ends |
| Fat16OnDisk.ClusterByte | src/kernel/file_syst/fat16.c:577-581 | a cluster's bytes are those of its sectors in order, the sectors computed from the fields |
| Bpb.RootSectorsSuffice | src/kernel/file_syst/fat16.c:75-78 | the root directory gets enough sectors and not one too many |
| FatChain.ChainsUnique | src/kernel/file_syst/fat16.c:303-380 | a table determines its chains |
| FatChain.UpdateNewChain | src/kernel/file_syst/fat16.c:318-375 | taking a free cluster without a predecessor adds one chain of one cluster; all chains stay as they are and disjoint, and if they covered the table they still do |
| FatChain.UpdateExtends | src/kernel/file_syst/fat16.c:341-352 | taking a free cluster for the tail of a chain extends exactly that chain; chains stay disjoint, and if they covered the table they still do |
| FatChain.HopCycle | src/kernel/file_syst/fat16.c:543-562 | once two hop counts lead to the same cluster no later hop ever stops |
| FatChain.HopChain | src/kernel/file_syst/fat16.c:543-562 | walking from the first cluster visits the chain in order and then stops |
| FatTable.LinkCopiesFats | src/kernel/file_syst/fat16.c:357-375 | every copy of the table receives the same abstract update, in the same-sector and the different-sector case |
| FatTable.LinkCopiesFrame | src/kernel/file_syst/fat16.c:318-375 | no sector outside the copies changes |
| FreeCluster.FindFree | src/kernel/file_syst/fat16.c:321-335 | finds the lowest free entry of the first copy |
| FreeCluster.GetFreeCluster | src/kernel/file_syst/fat16.c:303-380 | takes the lowest free entry and performs exactly the abstract update in all copies |
| FreeCluster.AllCopiesUpdated | src/kernel/file_syst/fat16.c:354-375 | each copy is updated alike, copies equal before are equal after, and no sector outside the tables changes |
| FreeCluster.GrowsChain | src/kernel/file_syst/fat16.c:303-380 | called on a file's last cluster: that file's chain grows by the cluster taken, all others stay, on the sectors as written |
| FreeCluster.StartsChain | src/kernel/file_syst/fat16.c:334-340 | called with an end marker or reserved number: one new chain, all others stay |
| Fat16OnDisk.TakeOnDisk | src/kernel/file_syst/fat16.c:318-375 | in every copy, word by word: the entry taken becomes 0xffff, that of a cluster passed in becomes the number taken, no other changes |
| Fat16OnDisk.TakeNowhereElse | src/kernel/file_syst/fat16.c:318-375 | no sector outside the copies changes |
| Fat16OnDisk.LowestOnDisk | src/kernel/file_syst/fat16.c:318-334 | the cluster taken is the lowest whose word in the first copy is zero |
| Volume.ClustersApart | src/kernel/file_syst/fat16.c:577-581 | different clusters never share a sector, and lie in the data region |
| Volume.ContentAt | src/kernel/file_syst/fat16.c:518-519 | position p of a file is byte p mod c of its cluster number p div c, for clusters of c bytes |
| Fat16Read.ReadFat16 | src/kernel/file_syst/fat16.c:501-601 | terminates on every table, cyclic ones included, returns the file's bytes from the offset on, is short only where the chain ends, and advances the offset by the count |
| Fat16Read.ReadOfChain | src/kernel/file_syst/fat16.c:501-601 | on a chain the count is min(size, max(0, capacity - offset)) and the bytes are that slice of the concatenated clusters |
| Fat16Read.ReadOfCycle | src/kernel/file_syst/fat16.c:541-593 | on a chain that runs into a cycle a read is never short |
| Fat16OnDisk.ReadOnDisk | src/kernel/file_syst/fat16.c:501-601 | for a chain spelled out on the disk, min(size, max(0, length - offset)) bytes arrive, and byte i is byte pos % 512 of sector startSect + reserved + fatCount * sectorsPerFat + rootSectors + (c - 2) * sectPerClust + pos % cluster / 512 |
| Fat16OnDisk.ReadOnWalk | src/kernel/file_syst/fat16.c:501-601 | the same as far as entries are known to lead on, in tables that are cyclic or broken further on |
| Fat16WriteSteps.HopOrGrow | src/kernel/file_syst/fat16.c:430-452 | a hop reaches the next cluster of the path; behind the end it takes a free cluster |
| Fat16WriteSteps.WritePiece | src/kernel/file_syst/fat16.c:466-480 | replaces one stretch of one cluster; every other sector stays |
| Fat16Write.SizeRight | src/kernel/file_syst/fat16.c:483-483 | the recorded size is the end of the file if and only if the write began at offset 0 or ended inside the old size |
| Fat16Write.WriteFat16 | src/kernel/file_syst/fat16.c:381-500 | returns size, adds it to the offset modulo 2^32, keeps the first cluster of a file that has one, and leaves the volume as a finished write: what lies inside the chain replaced, the rest in clusters taken; an empty file first gets the lowest free cluster; dirty bit set if a cluster was taken, else as it was; the recorded size right under the condition of SizeRight |
| Fat16Theorems.TakenIffBeyond | src/kernel/file_syst/fat16.c:428-452 | no cluster is taken if and only if the range lies inside the chain |
| Fat16Theorems.WriteInside | src/kernel/file_syst/fat16.c:381-500 | a range inside the chain: exactly those bytes of the concatenated clusters are replaced |
| Fat16Theorems.WriteAcross | src/kernel/file_syst/fat16.c:443-450 | a range across the end: the file gets the part that fits and no more |
| Fat16Theorems.OthersKept | src/kernel/file_syst/fat16.c:381-500 | every other file keeps its chain and its bytes, even when clusters are taken |
| Fat16Theorems.OthersKeptByCall | src/kernel/file_syst/fat16.c:381-500 | the same counted from the disk before the call, also if the file was empty then |
| Fat16Theorems.FrontUntouched | src/kernel/file_syst/fat16.c:381-500 | a write inside the chain changes no sector before the data region |
| Fat16Theorems.GrowthUnlinked | src/kernel/file_syst/fat16.c:443-450 | a write beyond the chain leaves the chain as long as it was; each cluster taken is a chain of its own, and as many are used up as the file lacked |
| Fat16Theorems.FirstClusterOnlyTables | src/kernel/file_syst/fat16.c:414-421 | giving an empty file its first cluster changes only the tables |
| Fat16Theorems.ReadBack | src/kernel/file_syst/fat16.c:381-601 | reading the range back gives the data as far as the chain reaches: all of it if and only if the range lies inside the chain |
| Fat16Theorems.ReadOther | src/kernel/file_syst/fat16.c:381-601 | every read of another file gives what it gave before the write |
| Disk.Device.ReadBlock | src/kernel/disk/disk.c:223-228 | a sector on the disk arrives whole at the given place and nowhere else; one past the end is refused and changes nothing |
| Disk.WordBytes | src/kernel/file_syst/fat16.c:344-344 | 16-bit words of a sector have their low byte first, on reading and on writing |
| Memory.WordBytes | src/kernel/heap/heap_cream.c:42-42 | 32-bit words in memory have their low byte first |
| Fat16Theorems.WriteThenRead | src/kernel/file_syst/fat16.c:381-601 | the two calls one after the other: min(size, room in the chain) bytes come back, equal to those written; all of them if and only if they fit |
| Fat16Theorems.WriteTwiceThenRead | src/kernel/file_syst/fat16.c:381-601 | two writes in a row put the second buffer directly behind the first: one read gives both |
| Fat16OnDisk.WriteOnDisk | src/kernel/file_syst/fat16.c:381-500 | every byte of the data is at its position along the chain and then the clusters taken, in plain sectors |
| Fat16OnDisk.WriteNowhereElse | src/kernel/file_syst/fat16.c:381-500 | no other byte of the data region changes |
| Fat16OnDisk.WriteFront | src/kernel/file_syst/fat16.c:381-500 | before the data region only the tables change, and nothing at all if the range lies inside the chain |
| Fat16Theorems.WroteRests | src/kernel/file_syst/fat16.c:381-500 | after a write the volume meets again what the next write requires of its tables |
| Fat16Theorems.WriteThenRuns | src/kernel/file_syst/fat16.c:381-500 | what one call promises is a step that any sequence of writes may begin with |
| Fat16Theorems.RunKeeps | src/kernel/file_syst/fat16.c:381-500 | after any sequence of writes to any files each file's content is the result of its own writes, and its chain is what it was |
| Fat16Theorems.ReadAfterRun | src/kernel/file_syst/fat16.c:381-601 | a read after such a sequence gives that slice of the result |
| Fat16Examples.GrowthLost | src/kernel/file_syst/fat16.c:443-450 | a volume on which 1024 bytes are written and 512 come back |
| Fat16Examples.SizeTooSmall | src/kernel/file_syst/fat16.c:483-483 | a volume on which one byte written at offset 100 of a file of size 0 comes back and the size recorded is 1 |
| DiskStream.Stream.GetBytesFromDisk | src/kernel/disk/disk_stream.c:46-75 | copies that prefix of the disk's bytes from the position on and reads the sectors one after the other, each once |
| DiskStream.SliceByte | src/kernel/disk/disk_stream.c:66-69 | byte i of a slice is byte (pos + i) % 512 of sector (pos + i) / 512 |
| DiskStream.WholeRange | src/kernel/disk/disk_stream.c:52-72 | a range on the disk without overflow arrives whole, and the sectors from that of its first to that of its last byte are read in order |
| DiskStream.CopiedAll | src/kernel/disk/disk_stream.c:55-57 | everything arrives if and only if it is on the disk and the sector count does not overflow |
| DiskStream.OverflowCopiesLess | src/kernel/disk/disk_stream.c:55-57 | a range on the disk of which one byte arrives |
| DiskStream.SectorsCovered | src/kernel/disk/disk_stream.c:52-72 | the sectors read are those that hold a byte of the range, and no other |
| Fat12.DecodesPacked | src/tools/fat.c:131-144 | next_cluster finds entry k in any packed table, for even and odd k |
| Fat12.PackIsNumber | src/tools/fat.c:131-144 | the packing is the entries as twelve-bit digits of one number, the table read with its low byte first |
| Fat12.PacksDecoded | src/tools/fat.c:131-144 | a table of whole pairs is the packing of its decoded entries |
| Fat12.NextIsEntry | src/tools/fat.c:136-143 | the masks and shifts compute the 12-bit entry |
| Fat12File.ReadFile | src/tools/fat.c:145-178 | for a chain spelled out in the table, succeeds if and only if all clusters are in the image; then byte i of the buffer is byte i % cluster of sector reserved + fatCount * sectorsPerFat + directory + (c - 2) * sectorsPerCluster; the buffer is exactly the concatenated clusters if the chain has ceil(size / cluster) of them |
| Fat12File.DataFollows | src/tools/fat.c:155-156 | the data region begins where the root directory ends |
| Fat12File.ClustersAdjoin | src/tools/fat.c:169-169 | each cluster begins where the one before it ends |
| Fat12File.DirSizeSuffices | src/tools/fat.c:111-111 | the root directory has room for its entries and less than a sector to spare |
| Fat12File.ClustersAt | src/tools/fat.c:165-176 | cluster i of the chain is the i-th stretch of the buffer |
| Fat12File.BufferFits | src/tools/fat.c:157-158 | the buffer holds the file with less than a cluster to spare |

## Left out

- ATA port input and output, interrupts, timers, boot and assembly code: hardware. `Disk.Device` transfers never fail; only
  sectors past the end are refused, and a refused read leaves the buffer as it was.
- Screen output and the output part of `read_file` in `src/tools/fat.c`.
- Writes to CR3 and the translation caches: `Walk` is the translation by the tables in memory.
- `mount_fat16`, `create_file_fat16`, `delete_file_fat16`, the cache table, the hashes and `vfs.c`: unfinished in the
  repository (the hashes are constant, a list search does not advance).
- `src/kernel/gen32_heap/heap.c`, `partitions.c`, `string.c`, `ctype.c`, the archived file system copies: unfinished or routine.
- Sector sizes other than 512 in the file code; `Bpb.ParseBpb` accepts the other three as the code does.
- `FreeCluster.GetFreeCluster`: requires a free entry below 0xfff8; without one the code goes on with an uninitialised sector number.
- `Fat16Write.WriteFat16`: requires enough free entries for the clusters that the range lacks, and entries 0 and 1 in use. The
  given chains must end and be disjoint; other used entries, such as bad clusters, may be on no chain.
- Sector numbers of the file code are unbounded, while the code adds them up in 32 bits: a partition that reaches past
  sector 2^32 is not modelled, apart from `Bpb.ParseRegions`.
- Clients that write into their memory while `Startup.Serve` runs: `HeapCream.Cream.StoreInBlock` and
  `HeapCream.Cream.StoreInKept` say that such a write stays in its page.
- Fat16Theorems.WriteInside: as for the other theorems on file contents, the clusters of the file must lie on the disk; for a
  cluster past its end the code goes on with stale buffer contents.
- Scratch buffers of the FAT16 code are fresh arrays: failure of their allocation, and the limit 512 * sectors per cluster
  <= 3968 that the slab allocator puts on them, are not modelled.
- Users of `kfree` other than the slab layer in the runs of `SlabRuns`: the scratch buffers of `disk_stream.c` return pages
  with arbitrary contents, after which a recycled page need not be clean. `DiskStream` uses a fresh array.
- `KernelHeap.Kernel.Kfree`: addresses outside the heap, for which the code indexes outside the tag table.
- The heap region is taken to be all zero at boot.
- `Fat12File.ReadFile`: chains longer than the buffer, which the code does not check for, and a failing `malloc`.
- Several methods (`HeapCream.Cream.MallocScan`, `Fat16Write.Round`, `Paging.FillPage` and others) are parts of one C function.
