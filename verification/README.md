# A verified model of the systems projects

Dafny models of the cores of four systems projects, with proofs of what each is for: a segregated-fit memory
allocator, the splay tree and the sparse memory of its test driver, a cache simulator, a caching web proxy with its
buffered I/O, and a job-control shell. `dafny verify dfyconfig.toml` checks all of it. `Arithmetic` and `Sequences`
have what several of them share.

## What is modelled

**Allocator (malloc/mm.c).** `BoundaryTags` has the header words, the bucket function and the size arithmetic with its
64-bit wrap-around. `HeapLayout` and `HeapOps` describe a heap as a map from addresses to blocks with fifteen free
lists; `HeapMemory` and `FreeLists` say when words in memory encode such a heap and show that the stores of each
routine keep the encoding. `Allocator` has the routines on an array of words, proved against `HeapOps`;
`AllocatorRuns` has what holds over whole runs, and carries out any of them in memory, the first `mm_init` included.
What a copy or a clearing past its payload would hit is not defined: the routines stop before it and say so. Addresses
are word indexes into the heap (word 0 is the prologue, so 0 can stand for NULL), sizes are in words, and the initial
contents of memory are arbitrary. `mem_sbrk` is a bounded bump. `mm_init` is modelled from a fresh state: the source
does not clear `mini_free_root` there (malloc/mm.c:992-996). The invariant proved is not the one `mm_checkheap` tests
(malloc/mm.c:849-985): that one disagrees with the working code about the epilogue, the alignment of headers, mini
blocks and bucket ranges.

**Splay tree (malloc/stree.c).** `SplayShape` has trees as values and what splaying and joining do to them,
`SplayCost` the amortised bound, `SplayLinks` what the pointer stores do to a memory of nodes, and `SplayTree` the
routines on nodes with left, right and parent fields. Insert and remove are proved to make exactly the shapes and the
number of `splay` rounds the bound is about. `SplayRuns` carries out any run of calls in memory, and tells replies,
contents and rounds on the map alone.

**Sparse memory (malloc/memlib.c).** `FlatMemory` has pages as values, words as bytes, and what a run of reads and
writes amounts to. `SparseMemory` has the page table with its chains and the emulated accesses, and `MemoryRuns`
carries out any run of them. Masks and shifts by whole bytes are written as arithmetic on numbers, and `|` of words
without common bits as a sum; what lies behind a page in memory is arbitrary. A lack of free blocks, which ends the
program, is the result `!ok`.

**Cache simulator (cache/csim.c).** `LruStack` has one set as a recency list, `CacheRun` whole runs and the
statistics, `CacheSim` the lines with their time stamps. `s + b` stays below 64 and `s` and `b` below 31 in the
source's arithmetic; counters are unbounded here.

**Proxy (proxy/cache.c, proxy/proxy.c, proxy/csapp.c).** `ObjectCache` has the cache as a value, `ProxyCache` the
doubly linked list with reference counts, `ProxyThreads` every interleaving of threads that search, copy out, release,
fetch and insert, one step for each critical section and each round of a loop, `ProxyServe` the two loops. `RioStream`
and `Rio` have buffered input and robust output over descriptors that hand out and take any pieces.

**Shell (shell/tsh.c, shell/tsh_helper.c).** `JobTable` and `JobList` have the job list, `ShellRun` the interleavings
of `eval`, the SIGCHLD handler and the children, where the handler runs only while signals are unblocked. An `abort()`
is an explicit outcome. A round of the handler's loop is one step, so the model allows the main program to run between
two rounds, which is more than the shell can do.

## Where the code falls short of its promise

- `malloc` and `realloc` compute the block size with wrap-around: the payload has room for the request if and only if
  the request is at most 2^64 - 24 bytes (`MallocHonours`), and a fresh heap serves all requests beyond
  (`HugeRequestServed`). So `realloc` copies past its new payload exactly when it gets one, the size wraps, and the
  old payload is more than one word (`CopyFitsExactly`, `HugeReallocOverruns`), which the first payload of a heap with
  room for two chunks can show (`FirstPayloadOverruns`). `calloc` clears past its payload exactly when it gets one and
  the product is beyond that limit without wrapping itself.
- The shell aborts if and only if a child that found no room in the job list is reported stopped, or `bg` looks up the
  command line of a job that has ended since (`AbortsExactly`, with a run for each in `LostChildCanAbort` and
  `BgCanAbort`).

## Model

| member | source | states |
|---|---|---|
| `BoundaryTags.PackOfFields` | malloc/mm.c:224-318 | The header word is determined by the four values packed into it, so `pack` and the `extract_` functions are inverse. |
| `BoundaryTags.FieldsInBits` | malloc/mm.c:108-125 | Where the fields lie: allocated in bit 0, previous allocated in bit 1, previous mini in bit 2, and the size in bytes is the word without its lowest four bits. |
| `BoundaryTags.WithPrevAlloc` | malloc/mm.c:448-453 | Setting or clearing the previous-allocated bit in a neighbour's header changes none of the other fields. |
| `BoundaryTags.WithPrevMini` | malloc/mm.c:455-459 | The same for the previous-mini bit. |
| `BoundaryTags.SearchRootIndex` | malloc/mm.c:549-560 | The loop of `search_root_index` computes the bucket function the lists are specified with. |
| `BoundaryTags.RootIndexRange` | malloc/mm.c:549-560 | Bucket r holds exactly the sizes above 32 * 2^(r-1) and up to 32 * 2^r bytes; the last one is open above. |
| `BoundaryTags.RootIndexMonotone` | malloc/mm.c:549-560 | A larger block never lives in a lower bucket. |
| `BoundaryTags.BlockFitsRequest` | malloc/mm.c:208-210 | With 64-bit wrap-around, the block size computed for a request has room for it exactly up to 2^64 - 24 bytes, and wastes less than 16 bytes. |
| `BoundaryTags.OverflowCheckExact` | malloc/mm.c:1182-1190 | The division test in `calloc` refuses exactly the products that wrap around. |
| `HeapLayout.WalkVisits` | malloc/mm.c:403-408 | Following `find_next` from any block visits exactly the blocks from there on, in address order, each once. |
| `HeapLayout.Predecessor` | malloc/mm.c:491-514 | Every block but the first, and the epilogue, has a block ending where it starts. |
| `HeapLayout.PredecessorUnique` | malloc/mm.c:491-514 | And only one. |
| `HeapOps.CoalesceShaped` | malloc/mm.c:688-748 | Coalescing merges a block with its free neighbours into one block of the tiling, and leaves the lists of all others right. |
| `HeapOps.FreeGood` | malloc/mm.c:1102-1127 | `free` keeps the invariant: exact tiling, alignment, no two free neighbours, and lists that hold exactly the free blocks. |
| `HeapOps.ExtendGood` | malloc/mm.c:757-783 | `extend_heap` keeps the invariant. |
| `HeapOps.PlaceGood` | malloc/mm.c:1079-1094 | Taking a free block out of its list, marking it and splitting it keeps the invariant. |
| `HeapOps.MallocGood` | malloc/mm.c:1026-1094 | `malloc` keeps the invariant, whether it finds, grows or fails. |
| `HeapOps.MallocFresh` | malloc/mm.c:1026-1094 | `malloc` returns a block that was in no use, large enough and less than 16 bytes too large, and keeps all blocks in use as they are. |
| `HeapOps.FreeKeeps` | malloc/mm.c:1102-1127 | `free` changes no other block in use. |
| `HeapOps.FindComplete` | malloc/mm.c:828-841 | The search finds a block exactly when some free block, mini blocks included, is large enough, and what it finds is free and large enough. |
| `HeapOps.FindIsChoice` | malloc/mm.c:1054-1075 | Without growing, `malloc` uses the newest mini block for a 16-byte block if there is one, and otherwise the first block large enough, bucket by bucket from that of the request on, each from its newest block. |
| `HeapOps.ChoiceUnique` | malloc/mm.c:828-841 | Only one block meets that description. |
| `HeapOps.MallocChooses` | malloc/mm.c:1054-1089 | The block `malloc` returns is that one. Only if there is none does the heap grow, by the larger of request and chunk, and then the block at its end is used, with the last block before it if that is free. |
| `HeapOps.AllocateAround` | malloc/mm.c:1136-1171 | A block in use stays as it is while another is allocated, which `realloc` relies on. |
| `HeapMemory.CoalesceEncoded` | malloc/mm.c:688-748 | The one write that ends `coalesce_block` makes headers, footers, neighbour bits and lists in memory agree with the merged layout again. |
| `HeapMemory.CutEncoded` | malloc/mm.c:796-820 | The two writes of `split_block` leave memory that encodes a shorter block in use and a free rest, the footer of the rest over former payload included. |
| `HeapMemory.ExtendEncoded` | malloc/mm.c:757-783 | The stores of `extend_heap` turn the old epilogue into a header and put a new epilogue behind. |
| `HeapMemory.GiveBackEncoded` | malloc/mm.c:1114-1117 | The write of `free` puts a footer where payload was and keeps everything else encoded. |
| `HeapMemory.PayloadStoresEncoded` | malloc/mm.c:384-391 | A store to any payload word, the footer position included, breaks nothing. |
| `FreeLists.PushEncoded` | malloc/mm.c:571-591 | The pointer stores of `insert_free_block` put the block in front of its doubly linked bucket list and change no payload. |
| `FreeLists.UnlinkEncoded` | malloc/mm.c:629-651 | The pointer stores of `remove_free_block` take the block out of its bucket list, wherever it is in it. |
| `FreeLists.PushMiniEncoded` | malloc/mm.c:562-569 | The stores of `insert_mini_block` put a 16-byte block in front of the singly linked mini list. |
| `FreeLists.UnlinkMiniEncoded` | malloc/mm.c:593-627 | The stores of `remove_mini_block` and `pop_mini_block` take a block out of the mini list. |
| `Bytes.CopyBytes` | malloc/mm.c:1165 | A copy of words and a last partial word equals the bytewise copy and keeps the bytes behind it. |
| `Bytes.ZeroBytes` | malloc/mm.c:1198 | The same for clearing bytes. |
| `Allocator.Allocator.WriteBlock` | malloc/mm.c:434-460 | Header, footer of a non-mini free block and the two bits in the next header are written, and no other word. |
| `Allocator.Allocator.InsertFreeBlock` | malloc/mm.c:562-591 | In place: memory and roots encode the heap with the block listed. |
| `Allocator.Allocator.RemoveMiniBlock` | malloc/mm.c:593-616 | The search loop finds the block and takes it out of the mini list; a block that is not there is left alone. |
| `Allocator.Allocator.PopMiniBlock` | malloc/mm.c:618-626 | The newest mini block is taken, or NULL returned. |
| `Allocator.Allocator.RemoveFreeBlock` | malloc/mm.c:629-651 | In place: memory and roots encode the heap with the block unlisted. |
| `Allocator.Allocator.FindPrev` | malloc/mm.c:491-514 | The bits and the footer lead to the block before exactly when it is free, and to NULL otherwise. |
| `Allocator.Allocator.CoalesceBlock` | malloc/mm.c:688-748 | All four cases: memory encodes the coalesced heap and the merged block is returned. |
| `Allocator.Allocator.ExtendHeap` | malloc/mm.c:757-783 | Grows the heap by the rounded size and returns the listed free block, or returns NULL and changes nothing. |
| `Allocator.Allocator.SplitBlock` | malloc/mm.c:796-820 | Cuts off what is left beyond the wanted size, mini rests included, and lists it. |
| `Allocator.Allocator.FindFit` | malloc/mm.c:828-841 | The two nested loops return the first block large enough: no block of an earlier bucket from that of the request on, and none before it in its own, has the size. NULL if no block has. |
| `Allocator.Allocator.MallocBlock` | malloc/mm.c:1054-1094 | In place: if the heap has not grown, the block returned is the newest mini block or the first fit in the heap before the call. |
| `Allocator.Allocator.Init` | malloc/mm.c:992-1018 | Succeeds exactly when the break can move far enough, and then leaves one free chunk. |
| `Allocator.Allocator.Malloc` | malloc/mm.c:1026-1094 | Keeps the invariant and its encoding, returns the payload the specification names or NULL, and changes no live payload word. |
| `Allocator.Allocator.Free` | malloc/mm.c:1102-1127 | Keeps the invariant and its encoding, leaves the heap the specification names, and changes no other live payload word. |
| `Allocator.Allocator.Realloc` | malloc/mm.c:1136-1171 | The new payload starts with the first min(old capacity, new size) bytes of the old one; other payloads keep every word, and so does the old one on failure. The copy stays inside the new payload exactly as `CopyFits` says; otherwise the method stops before it. |
| `Allocator.Allocator.Calloc` | malloc/mm.c:1180-1202 | NULL for wrapped products; otherwise the payload of `malloc` with all requested bytes zero and all live payloads kept. It clears no more than its payload exactly when the product is at most 2^64 - 24 or refused; otherwise the method stops before. |
| `Allocator.MallocHonours` | malloc/mm.c:1051 | The payload has room for the request if and only if the request is at most 2^64 - 24 bytes: beyond that the size has wrapped. |
| `Allocator.HugeRequestServed` | malloc/mm.c:1051 | On a fresh heap every request beyond that limit is served with a payload of 8 bytes. |
| `Allocator.AllocatedSize` | malloc/mm.c:1051-1089 | The block returned has exactly the size computed for the request, so splitting wastes nothing. |
| `Allocator.CopyFitsExactly` | malloc/mm.c:1136-1171 | The copy of `realloc` stays inside the new payload if and only if the request does not wrap or the old payload is one word. |
| `AllocatorRuns.StartServes` | malloc/mm.c:992-1018 | The heap starts with one free block of a chunk. |
| `AllocatorRuns.HugeReallocOverruns` | malloc/mm.c:1136-1171 | While the heap can grow by a chunk, `realloc` of any payload of more than one word to a size that wraps around copies past its new payload. |
| `AllocatorRuns.FirstPayloadOverruns` | malloc/mm.c:1136-1171 | The first payload a program asks for can be such a one. |
| `AllocatorRuns.PerformAll` | malloc/mm.c:1026-1202 | Any legal run of malloc, calloc, free, realloc and stores of the program, in memory and from the first call on: heap and returned pointers are those of the specification, and a payload the run never names keeps every word. It comes to its end exactly when every copy and clearing stays inside its payload. |
| `AllocatorRuns.UnnamedBlockStays` | malloc/mm.c:1026-1202 | Over any legal run of malloc, calloc, free and realloc, a payload that the run never names stays in use, in place and in size. |
| `AllocatorRuns.StepUses` | malloc/mm.c:1026-1202 | After any call the blocks in use are exactly those before it, less the one released or moved, plus the one returned. |
| `AllocatorRuns.UsedDetermine` | malloc/mm.c:688-748 | The blocks in use and the end of the heap determine all blocks: whatever is left is free, and merged as far as it goes. |
| `AllocatorRuns.FreedIsNewest` | malloc/mm.c:571-591 | The block that a freed one has become part of is the first of its list, so the next request for that list that fits is served from it. |
| `AllocatorRuns.PayloadsDisjoint` | malloc/mm.c:1026-1094 | Payloads of different blocks in use share no word; each starts at a multiple of 16 bytes inside the heap. |
| `AllocatorRuns.ListsAreTheFreeBlocks` | malloc/mm.c:549-651 | The 14 buckets and the mini list together hold exactly the free blocks, each once, each in the list for its size. |
| `AllocatorRuns.HeaderWalkIsWalk` | malloc/mm.c:403-408 | Following header sizes in memory visits exactly the blocks of the tiling. |
| `AllocatorRuns.WalkTilesHeap` | malloc/mm.c:403-408 | In every state of every run the walk from `heap_start` fills the heap exactly up to the epilogue. |
| `AllocatorRuns.GrowsOnlyWhenNeeded` | malloc/mm.c:1062-1073 | The heap grows only when no free block, mini or not, could serve the request; NULL comes only when it cannot grow either. |
| `AllocatorRuns.PlaceThenRelease` | malloc/mm.c:1079-1127 | Taking a free block and freeing it restores the blocks exactly, split or not. |
| `AllocatorRuns.MallocThenFree` | malloc/mm.c:1026-1127 | `free(malloc(n))` restores the sequence of blocks, or leaves the one the growth alone would leave. |
| `AllocatorRuns.AllFreedIsOneBlock` | malloc/mm.c:688-748 | Once all blocks in use are freed, in any order, a non-empty heap is a single free block. |
| `SplayShape.SplayKeepsOrder` | malloc/stree.c:203-227 | Splaying makes the node the root and leaves the in-order sequence of nodes as it was, for every tree and node. |
| `SplayShape.StepsAreHalves` | malloc/stree.c:203-227 | The rounds counted are half the depth of the node, rounded up. |
| `SplayShape.RotationKeepsOrder` | malloc/stree.c:165-201 | A rotation keeps the in-order sequence. |
| `SplayShape.ContentsOf` | malloc/stree.c:38-88 | A tree with increasing keys stands for a finite map with as many keys as nodes. |
| `SplayShape.SearchFinds` | malloc/stree.c:75-88 | The search ends at a node exactly when the key is in the map, and brackets the key otherwise. |
| `SplayShape.NearestFound` | malloc/stree.c:90-106 | The last node passed on the left has the greatest key up to the query. |
| `SplayShape.ContentsWith` | malloc/stree.c:53-72 | One node more in key order is one key more in the map. |
| `SplayShape.JoinOrder` | malloc/stree.c:119-136 | Replacing the root by its successor, or by its only child, keeps the order of the rest. |
| `SplayCost.SplayAmortised` | malloc/stree.c:203-227 | A splay of x costs at most 3 (rank of the root - rank of x) + 1, amortised over the sum of floor(log2(subtree size)). |
| `SplayCost.Log2Bounds` | malloc/stree.c:203-227 | The logarithm of the bound is the number of the highest bit. |
| `SplayCost.InsertAmortised` | malloc/stree.c:38-73 | An insert costs at most 4 floor(log2 n) + 1 splay rounds amortised, n nodes after it. |
| `SplayCost.RemoveAmortised` | malloc/stree.c:108-140 | A removal costs at most 4 floor(log2 n) + 1 splay rounds amortised, n nodes before it. |
| `SplayCost.RunFromEmpty` | malloc/stree.c:38-140 | Over any run from the empty tree, the rounds of `splay` total at most the sum of 4 floor(log2 n) + 1 over the calls. |
| `SplayRuns.PerformAll` | malloc/stree.c:38-140 | Any run of inserts, removals and searches in memory: replies and contents are those of a finite map, and from an empty tree all rounds of `splay` together are at most the sum of 4 floor(log2 n) + 1 over the inserts and removals. |
| `SplayLinks.RotateRightLocated` | malloc/stree.c:184-201 | The pointer stores of `right_rotate` turn the shape in memory and keep every parent pointer the inverse of its child pointer. |
| `SplayLinks.RotateLeftLocated` | malloc/stree.c:165-182 | The same for `left_rotate`. |
| `SplayLinks.SpliceLocated` | malloc/stree.c:229-238 | The stores of `replace` put a part of a subtree in the place of the subtree. |
| `SplayTree.SplayTree.RotateRight` | malloc/stree.c:184-201 | The method makes exactly these stores, the root pointer included; without a child to turn up it cuts the node off. |
| `SplayTree.SplayTree.RotateLeft` | malloc/stree.c:165-182 | The mirror image. |
| `SplayTree.SplayTree.Splay` | malloc/stree.c:203-227 | The loop ends with the splayed shape in memory after exactly the counted number of rounds. |
| `SplayTree.SplayTree.Insert` | malloc/stree.c:38-73 | Rejects exactly the duplicates; otherwise adds the key to the map, with its node at the root, the specified shape and the specified number of rounds. |
| `SplayTree.SplayTree.Find` | malloc/stree.c:75-88 | Returns the record of the key, or NULL. |
| `SplayTree.SplayTree.FindNearest` | malloc/stree.c:90-106 | Returns the record of the greatest key up to the query, or NULL. |
| `SplayTree.SplayTree.Remove` | malloc/stree.c:108-140 | Returns the record and takes exactly that key out of the map, in both successor cases; the count stays the size of the map. |
| `SplayTree.SplayTree.FindMinimum` | malloc/stree.c:240-244 | The leftmost node of a subtree, which is its first in key order. |
| `SplayTree.SplayTree.UnlinkInner` | malloc/stree.c:119-136 | A root with two children gives its place to its successor, wherever that is. |
| `FlatMemory.MaskIsRemainder` | malloc/memlib.c:381-386 | The mask of the low n bytes is the remainder by 256 to the power n. |
| `FlatMemory.RaisedIsProduct` | malloc/memlib.c:389 | The shift by n bytes is the product with 256 to the power n. |
| `FlatMemory.CombinedByte` | malloc/memlib.c:381-389 | Masking one page's word and joining the next page's word above it gives the bytes of the first, then of the second. |
| `FlatMemory.CopyStep` | malloc/memlib.c:452-458 | One read and one write go on with the copy as long as no word is written that is still to be read. |
| `FlatMemory.SafeExactly` | malloc/memlib.c:449-464 | The copy of eight bytes at a time is the bytewise copy exactly when the ranges are disjoint, the destination is not above the source, or there are at most eight bytes. |
| `FlatMemory.RunIsFlat` | malloc/memlib.c:369-485 | In every run of reads, writes, fills and copies the memory holds at each address the byte a flat memory holds there. |
| `FlatMemory.ReadReturnsStored` | malloc/memlib.c:369-406 | A read in such a run returns the bytes of the flat memory after the calls before it, whatever else the pages or the words behind them hold. |
| `SparseMemory.ChainGrows` | malloc/memlib.c:569-575 | A new page in front of its chain keeps the chains: each id once, in chain id % num_buckets. |
| `SparseMemory.SparseMemory.FindPage` | malloc/memlib.c:550-555 | The search of a chain finds the page exactly when it is in use. |
| `SparseMemory.SparseMemory.GetPage` | malloc/memlib.c:548-582 | Pages in use keep every byte; a new one costs one free block, and only a lack of blocks ends the program. |
| `SparseMemory.SparseMemory.Sbrk` | malloc/memlib.c:261-312 | Negative increments and those past the largest heap are refused; otherwise the old break is returned. |
| `SparseMemory.SparseMemory.ResetBrk` | malloc/memlib.c:227-258 | No page is in use and the break is back at the start. |
| `SparseMemory.SparseMemory.LoadWord` | malloc/memlib.c:377 | A word load shows the bytes of the page and arbitrary ones behind it. |
| `SparseMemory.SparseMemory.Read` | malloc/memlib.c:369-406 | Returns the little-endian number of the len bytes, across pages too, changes no byte, and fails exactly when the free blocks do not suffice. |
| `SparseMemory.SparseMemory.Write` | malloc/memlib.c:409-446 | The len bytes show the low bytes of the value, across pages too, no other byte changes, and it fails exactly when the free blocks do not suffice. |
| `SparseMemory.SparseMemory.Read128` | malloc/memlib.c:356-361 | The same as `Read` for sixteen bytes, the exact condition for failing included. |
| `SparseMemory.SparseMemory.Write128` | malloc/memlib.c:363-366 | The same as `Write` for sixteen bytes, the exact condition for failing included. |
| `SparseMemory.SparseMemory.Memcpy` | malloc/memlib.c:449-464 | For all ranges, overlapping or not, each byte is the one that the reads and writes in ascending order put there, and no other byte changes; it fails exactly when the free blocks do not suffice for the pages of both ranges. |
| `SparseMemory.SparseMemory.Memset` | malloc/memlib.c:467-485 | Every one of the n bytes becomes the low byte of c, and no other changes; it fails exactly when the free blocks do not suffice. |
| `SparseMemory.EightTimes` | malloc/memlib.c:470-475 | The loop puts the byte into all eight places of a word. |
| `FlatMemory.WrittenIsRead` | malloc/memlib.c:369-446 | In any run, a read of what an earlier write stored, with no write to these bytes in between, returns that value modulo 256 to the power of the length, whatever pages it crosses. |
| `MemoryRuns.PerformAll` | malloc/memlib.c:356-485 | Any run of `mem_read`, `mem_write`, `mem_memset` and `mem_memcpy` on the page table: every read returns the bytes of the flat memory after the calls before it, and the memory at the end holds those after all calls. It comes to its end exactly when there is a free block for every page the calls touch for the first time. |
| `LruStack.TouchKeepsTop` | cache/csim.c:168-215 | The recency list of any associativity keeps the top of the one stack of all tags used. |
| `LruStack.AboveIsSince` | cache/csim.c:168-215 | Above a tag in that stack are exactly the tags used since it was used. |
| `LruStack.HitIffRecent` | cache/csim.c:133-146 | A tag is in the top E exactly when fewer than E other tags were used since. |
| `CacheRun.SetIsTopOfStack` | cache/csim.c:133-215 | After every trace, every set holds the most recently used distinct tags of its history, as many as it has lines. |
| `CacheRun.HitExactly` | cache/csim.c:133-146 | An access hits exactly when fewer other tags than lines were used in its set since its tag was. |
| `CacheRun.Inclusion` | cache/csim.c:133-215 | For the same trace, what is resident with E1 lines is resident with E2 >= E1 lines after every access. |
| `CacheRun.MissesNeverIncrease` | cache/csim.c:189-191 | So misses never increase with associativity. |
| `CacheRun.VictimLeastRecent` | cache/csim.c:148-165 | Every other resident tag was used after the victim. |
| `CacheRun.HitsAndMisses` | cache/csim.c:177-191 | Hits and misses add up to the accesses. |
| `CacheRun.HitsAreOutcomes` | cache/csim.c:168-215 | The hits counted are the operations that hit. |
| `CacheRun.EvictionsAreMissesNotResident` | cache/csim.c:194-200 | Evictions are the misses minus the valid lines. |
| `CacheRun.DirtyBytesConserved` | cache/csim.c:182-214 | dirty_bytes is 2^b times the dirty lines; with dirty_evictions it is 2^b times the number of clean-to-dirty transitions. |
| `CacheRun.DirtyExactly` | cache/csim.c:180-214 | A line is dirty exactly when its block was stored to since its last fill, the filling store included. |
| `CacheSim.SameBlock` | cache/csim.c:172-173 | Two addresses share set and tag exactly when they lie in the same block of 2^b bytes. |
| `CacheSim.SplitIs` | cache/csim.c:168-173 | The set index is address / 2^b modulo 2^s, the tag is address / 2^(s+b), and a store is a store. |
| `CacheSim.ShiftIsQuotient` | cache/csim.c:172-173 | A right shift by n is the quotient by 2^n. |
| `CacheSim.LowBitsAreRemainder` | cache/csim.c:172-173 | The mask of the low n bits is the remainder by 2^n. |
| `CacheSim.RivalsAre` | cache/csim.c:168-215 | The rivals of a block are the blocks of its set used by some operation after which it was not used itself. |
| `CacheSim.HitOnBlocks` | cache/csim.c:168-215 | On addresses: an operation hits exactly when its block of 2^b bytes was used before, and since then fewer other blocks of its set than the set has lines. |
| `CacheSim.HitsAreCounted` | cache/csim.c:168-215 | Over any operations the hits counted are those that hit so, and the misses are the others. |
| `CacheSim.SmallestIsLast` | cache/csim.c:148-165 | The line with the smallest time stamp is the least recently used one. |
| `CacheSim.Cache.SearchHit` | cache/csim.c:133-146 | Finds a valid line with the tag, or there is none. |
| `CacheSim.Cache.SearchVictim` | cache/csim.c:148-165 | Finds the first empty line, or a line with the smallest stamp. |
| `CacheSim.Cache.TouchCache` | cache/csim.c:168-215 | Lines, stamps and statistics are those of the run over the trace with one more operation, whose set index, tag and flag `SplitIs` gives; dirty_bytes never goes below zero. |
| `CacheSim.Cache.Process` | cache/csim.c:266-297 | The same for a whole trace. |
| `CacheSim.Cache.Simulate` | cache/csim.c:401-410 | On a fresh cache the hits reported are the operations that hit as `HitOnBlocks` says, and the misses the others. |
| `ObjectCache.EvictKeeps` | proxy/cache.c:51-72 | Eviction keeps every pinned object and stops only when there is room or only pinned objects are left. |
| `ObjectCache.EvictsOldest` | proxy/cache.c:51-63 | What goes is less recently used than every unpinned object that stays. |
| `ObjectCache.EvictsOnlyIfNeeded` | proxy/cache.c:52 | Before the last eviction there was no room for the new object. |
| `ObjectCache.SearchSound` | proxy/cache.c:129-151 | A search keeps keys distinct, the objects and the total size; a hit moves the object to the recent end and pins it once more. |
| `ObjectCache.SearchHits` | proxy/cache.c:129-151 | A search hits exactly when an object has the key asked for, and returns that object. |
| `ObjectCache.InsertSound` | proxy/cache.c:91-122 | An insert keeps the cache sound, keeps pinned objects and counts, and adds the object unless it is too large or the key is there. |
| `ObjectCache.InsertBound` | proxy/cache.c:91-122 | After an insert the size is at most MAX_CACHE_SIZE or (pinned + 1) * MAX_OBJECT_SIZE. |
| `ObjectCache.NinePinsFit` | proxy/cache.c:91-122 | With at most nine pinned objects an insert never exceeds MAX_CACHE_SIZE. |
| `ProxyCache.ProxyCache.Unlink` | proxy/cache.c:24-44 | The splice takes the object out of the doubly linked list, wherever it is. |
| `ProxyCache.ProxyCache.Append` | proxy/cache.c:74-84 | The splice adds the object at the tail. |
| `ProxyCache.ProxyCache.EvictObjects` | proxy/cache.c:51-72 | The loop leaves the list, size and counts the specification names. |
| `ProxyCache.ProxyCache.SearchObject` | proxy/cache.c:129-151 | In place: the search of the specification, with the list still well linked. |
| `ProxyCache.ProxyCache.InsertObject` | proxy/cache.c:91-122 | In place: a copy of the bytes is inserted exactly when the size allows it and the key is new. |
| `ProxyCache.ProxyCache.ReleaseObject` | proxy/cache.c:157-163 | One pin less, nothing else; the cache stays sound if and only if there was a pin. |
| `ProxyServe.SendObject` | proxy/proxy.c:247-262 | The bytes sent are a prefix of the object, all of it unless a write failed. |
| `ProxyServe.CollectResponse` | proxy/proxy.c:301-317 | The response is kept exactly when every write worked and all of it fits, and then the buffer holds all of it. |
| `ProxyThreads.StepInv` | proxy/proxy.c:243-321 | Every atomic step of any thread keeps the invariant. |
| `ProxyThreads.RunInv` | proxy/proxy.c:243-321 | It holds in every state of every interleaving. |
| `ProxyThreads.HandlesAreSafe` | proxy/cache.c:129-163 | In every interleaving the count of every object is its number of handles, and every object being sent is still in the list, pinned, and unchanged. |
| `ProxyThreads.HitDelivers` | proxy/proxy.c:247-263 | A hit delivers the whole response whose fetch created the entry for the address asked for. |
| `ProxyThreads.LooksRight` | proxy/proxy.c:243-321 | In every run a client that asks for an address is sent the object fetched for that address if there is one in the list, and is passed a fetch of that address otherwise. |
| `ProxyThreads.BornOfFetch` | proxy/proxy.c:301-317 | Every object is the whole response of an earlier fetch for its key. |
| `ProxyThreads.KeptExactly` | proxy/proxy.c:301-317 | A response is kept exactly if it was passed on to its end, is not empty and not larger than MAX_OBJECT_SIZE; then the cache has an object for its address. |
| `ProxyThreads.ServedAsAsked` | proxy/proxy.c:243-321 | In every interleaving, what a client that asked for an address has got is a prefix of what a fetch of that address brought, and all of it when its request ends, unless its connection broke. |
| `ProxyThreads.NeverTooFull` | proxy/cache.c:51-122 | With at most nine pinned objects at every insert, the cache never exceeds MAX_CACHE_SIZE. |
| `JobTable.AddJobOk` | shell/tsh_helper.c:340-392 | The slot of the next id is always free; it aborts exactly on a second foreground job or nonsense, and finds no room only when slot 64 is used. |
| `JobTable.DeleteJobOk` | shell/tsh_helper.c:399-415 | nextjid is one past the largest id again and no other job changes. |
| `JobTable.SetStateOk` | shell/tsh_helper.c:319-338 | Aborts exactly when there is no such job, no such state, or it would be a second foreground job. |
| `JobList.JobList.FindMaxJid` | shell/tsh_helper.c:287-294 | The downward scan finds the largest id. |
| `JobList.JobList.FindFgJob` | shell/tsh_helper.c:421-435 | The scan finds the foreground job. |
| `JobList.JobList.FindPid` | shell/tsh_helper.c:441-462 | The scan finds the job with the process id. |
| `JobList.JobList.Add` | shell/tsh_helper.c:340-392 | In place: what the specification of `add_job` names, aborts included. |
| `JobList.JobList.Delete` | shell/tsh_helper.c:399-415 | In place: what the specification of `delete_job` names. |
| `JobList.JobList.Change` | shell/tsh_helper.c:480-487 | In place: what the specification of `job_set_state` names, aborts included. |
| `ShellRun.AddGood` | shell/tsh.c:406-408 | `add_job` is never asked for a second foreground job. |
| `ShellRun.ResumeGood` | shell/tsh.c:257-301 | `fg` is never asked to make a second foreground job. |
| `ShellRun.StepGood` | shell/tsh.c:344-483 | Every step keeps the invariant, and aborts the shell exactly when it is one of the two fatal ones. |
| `ShellRun.AbortsExactly` | shell/tsh.c:304-316 | In every run the shell aborts at a step if and only if that step is a stop of a child for which there was no room, or the lookup in `bg` of a job that has gone. |
| `ShellRun.OneForeground` | shell/tsh.c:416-422 | In every run at most one job is in the foreground, and none at the prompt or while a job is added. |
| `ShellRun.EntriesFollow` | shell/tsh.c:257-472 | In every run: a foreground command that gets a slot is listed as FG, a background one as BG; `fg` and `bg` make the job they name FG and BG; a reported stop makes a job ST, whatever it was, and a reported end takes it out; no step changes any other entry. |
| `ShellRun.ForegroundIsWaitedFor` | shell/tsh.c:406-423 | In every run: a command put into the foreground, or a job resumed by `fg`, stays FG and the shell stays in its wait until the handler has reported that child ended or stopped. |
| `ShellRun.TestsExactly` | shell/tsh.c:416-422 | The wait loop ends exactly when no job is FG. |
| `ShellRun.ReapedAfterAdded` | shell/tsh.c:344-423 | A child is not reaped before its entry exists, and its entry goes when it is reaped. |
| `ShellRun.BgCanAbort` | shell/tsh.c:304-316 | A concrete run in which the unprotected lookup in `bg` aborts the shell. |
| `ShellRun.LostChildCanAbort` | shell/tsh.c:457-472 | A concrete run with 64 jobs in which a 65th child stops and the handler aborts the shell. |
| `RioStream.ReadTakes` | proxy/csapp.c:482-508 | Whatever piece `read` hands out is the next piece of the stream. |
| `RioStream.LineEnds` | proxy/csapp.c:543-567 | A line ends at its first newline, or has none and ends at the limit or at the end of the stream. |
| `RioStream.LengthAnswers` | proxy/csapp.c:523-567 | What the calls are specified to return is what their source promises: `rio_readnb` all n bytes or all that are left, `rio_readlineb` a line that ends at its first newline, at the limit or at the end. |
| `RioStream.AnswersUnique` | proxy/csapp.c:523-567 | Nothing else meets that promise. |
| `Rio.Buffer.Refill` | proxy/csapp.c:484-496 | The refill loop loses no byte, retries interrupts and stops at the end of file or an error. |
| `Rio.Buffer.ReadSome` | proxy/csapp.c:482-508 | Returns the next bytes, at least one unless nothing is left, and fewer than asked for only if the buffer is empty then. |
| `Rio.Buffer.ReadN` | proxy/csapp.c:523-540 | Returns the next bytes, whatever the pieces: exactly n of them, or fewer and then all that were left; -1 exactly when `read` failed. |
| `Rio.Buffer.ReadLine` | proxy/csapp.c:543-567 | Returns the next line, whatever the pieces: at most maxlen - 1 bytes with no newline before the last, ending at a newline, at that limit or at the end of the stream; -1 exactly when `read` failed. |
| `Rio.MakeCalls` | proxy/csapp.c:482-567 | Any mix of calls on one buffer: each result is what the source promises of its call on the stream the earlier results have left, so the results and what is left join to the stream: nothing is lost and nothing comes twice. It stops early only if `read` fails. |
| `Rio.WriteN` | proxy/csapp.c:454-474 | Writes all bytes in order, whatever the pieces; -1 exactly when `write` failed. |

## Left out

- Allocator: `mm_checkheap`, `get_bucket_range` and `print_heap`, which are debug code; shrinking in place, which the
  source does not do either; `mem_sbrk` failing for reasons other than the bound.
- Splay tree: `comparison_count`, `tree_free`, `tree_show` and allocation failure.
- Sparse memory: the dense heap, accesses outside the heap (they go to process memory), accesses of length 0, the
  initialised-bytes bitmap (compiled out), `hprobe` and the statistics.
- Cache simulator: parsing of arguments and traces, printing, allocation failure, and shifts outside the safe range.
- Proxy: sockets, the HTTP parser, header rewriting and error pages; a negative return of the read in the fetch loop,
  which the unsigned `n` of proxy/proxy.c:118 would take for a huge length; allocation failure; more pins than an
  `int` can count.
- Rio: `rio_readn`; a `write` that returns 0, which the source treats as an error or an interrupt by a stale `errno`.
- Shell: parsing, redirection, `execve`, printing, the forwarding of SIGINT and SIGTSTP (it changes children, not the
  list), allocation failure, and reuse of process ids.
- Allocator.Allocator.CoalesceBlock: merges the four cases of the source into one, in which a neighbour that is not
  free is 0.
- Allocator.Allocator.Realloc: does not model the stores of a copy that leaves the new payload, because what they hit is
  not defined; it stops before them, exactly when `CopyFitsExactly` says.
- Allocator.Allocator.Calloc: the same for a clearing that leaves the payload.
- ProxyServe.CollectResponse: takes the pieces of the response as given, each of 1 to MAXLINE bytes.
