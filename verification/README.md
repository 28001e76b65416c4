# Verified models of vineyard's allocator, hash tables and object migration

Vineyard keeps shared objects in memory. This project models the three parts of it that carry the hardest guarantees,
and proves those guarantees for all inputs and all reachable states:

* **dlmalloc**, the allocator behind blobs, in vineyard's own configuration (`src/server/memory/dlmalloc.cc`: no
  morecore, no directly mapped chunks, 64-bit words, no footers, a granularity that doubles with every region).
  `Dlmalloc.MallocState` is the allocator: header words, `prev_foot` words, bins, designated victim, top chunk, segments.
  Its `Valid()` is the global invariant that the source's debug checkers (`do_check_*`, `traverse_and_check`) only assert
  at run time; every public operation is proved to keep it, for every answer of the system.
* **The two open-addressing hash tables**: Robin Hood hashing (`RobinHood.Table`) and the bytell table with chains
  threaded through the slots (`BytellTable.Table`), each proved to be a plain map, including the insertions that give up
  half way and rebuild the table, with the exact condition for doing without.
* **Object migration and message framing**: the byte stream a sender writes, the receiver that rebuilds the objects
  (`Migration.Run`), and length-prefixed messages over a stream of short reads, short writes and retries
  (`Framing.Transfer`).

The files build on each other:

| files | content |
|---|---|
| Words, BinMaps, TreeIndex | 64-bit words, bin maps as words, the index of a tree bin |
| Tries, Links, Bins, BinTable | tree bins as tries; the pointer words that spell them out; all bins as a value; the class that updates them |
| Heaps, Steps, Segments | chunks tiling segments, boundary tags; every way in which the allocator changes them |
| Arenas, Moves, Grains, Alignments | the books (who owns which chunk); moves on heap and books together; sizes of requests |
| Requests, Filings | sizes and failure in plain numbers; where every operation leaves free bytes |
| Dlmalloc, Guarantees | the allocator; what callers get |
| HashPolicies, RobinHood, Bytell, BytellTable | where keys belong and how far a table must grow; the hash tables |
| Framing, Metadata, Protocols, Migration | framing, metadata trees, messages, migration |

How to read the allocator. An `Arena` is the state as a value: the heap `h` (chunks, tags, feet, segments), the designated
victim, the binned chunks `items` and the blocks held by callers, `live`, a map from payload address to the bytes asked
for. `Ready(s, stale, hole, loose)` is the invariant in the middle of an operation: the words of chunk `stale` may be out
of date, chunk `hole` is in use but held by no caller, chunk `loose` is free but filed nowhere; `Ready(s, 0, 0, 0)` is the
invariant between operations. It says: chunks tile every segment up to its limit; free chunks never touch; the size,
in-use and previous-in-use words and the feet agree with the chunks and between neighbours; every free chunk other than
the top chunk is the designated victim or in exactly one bin, the one of its size; each map bit is set just when its bin
is not empty; every segment but the newest ends in one chunk of 48 bytes for its record and then in fenceposts up to its
last word, and the newest in exactly `TOP_FOOT` bytes; chunks in use are exactly those of callers and these records; and
each payload holds what its caller asked for with at most `MIN_CHUNK_SIZE` to spare. `slack` is a ghost set of the blocks
that have exactly that much to spare, which only memalign makes; all others have less (`Snug`). `Kept(c, c', p)` says that
every chunk in use other than `p` is the same in `c'` as in `c`; `Covered(c, lo, hi)` that these bytes lie in one free
chunk; `Exhausted(bytes, system)` that no free chunk, not the top chunk and not the system can serve a request.

Two modules hold the vocabulary of the contracts, apart from what the allocator computes with. `Requests` says in plain
numbers which chunk and which region a request needs and when it fails. `Filings` says where free bytes are afterwards:
`FreedFiled(s, s', p, n)` for n bytes freed at p, `Resized` for a block resized in place, `RegionFiled` and `Served` for a
region taken in; an `Account` is the footprint, its peak, the granularity and the least address.

The memory system is a function from request sizes to addresses, 0 for failure, and `Trusted` says that it grants only
regions that are in word-aligned unused address space below 2^63. Hash functions, table sizes, the choice of fresh ids,
the text form of messages and the outcome of every read and write are parameters in the same way.

## Model

| member | source | states |
|---|---|---|
| `BinMaps.MarkBits` | thirdparty/dlmalloc/dlmalloc.c:2928-2937 | marking and clearing a bin change the bit of that bin and no other |
| `BinMaps.LeastIndex` | thirdparty/dlmalloc/dlmalloc.c:2940-2988 | `compute_bit2idx` of `least_bit` is the first non-empty bin |
| `BinMaps.BitToIdxOfBit` | thirdparty/dlmalloc/dlmalloc.c:2978-2988 | the bit search undoes `idx2bit` for all 32 bins |
| `BinMaps.BitsLeftOf` | thirdparty/dlmalloc/dlmalloc.c:2943 | masking with `left_bits` leaves exactly the bins after i, also for the last bin, where the shift overflows |
| `BinMaps.LowPair` | thirdparty/dlmalloc/dlmalloc.c:4590-4594 | the two low bits of the shifted map tell whether the bin of a small request or the next is non-empty, and which |
| `BinMaps.ShiftedLeft` | thirdparty/dlmalloc/dlmalloc.c:4610-4612 | the shifted, masked map holds the non-empty bins after the one of the request |
| `TreeIndex.TreeIndexRange` | thirdparty/dlmalloc/dlmalloc.c:2891-2922 | every large size lies between the least size of its bin and that of the next bin, if there is one |
| `TreeIndex.IndexOrder` | thirdparty/dlmalloc/dlmalloc.c:2891-2907 | a size of an earlier bin is below every size of a later one |
| `TreeIndex.BinHolds` | thirdparty/dlmalloc/dlmalloc.c:2910-2922 | the range of a bin is told apart by the binary digits that its trie branches on |
| `TreeIndex.FirstDigits` | thirdparty/dlmalloc/dlmalloc.c:2915-2917 | the left shift of a size puts the first digit that matters for its bin at the sign bit |
| `TreeIndex.NextDigit` | thirdparty/dlmalloc/dlmalloc.c:3674-3679 | the sign bit says which half a size is in, and shifting it out leaves the digits of that half |
| `TreeIndex.X86Agrees` | thirdparty/dlmalloc/dlmalloc.c:2848-2859 | the form that GNU compilers use on x86 cuts the shifted size to 32 bits: it gives the bin of the size modulo 2^40, which is the right one just for smaller sizes and for those whose rest belongs to the last bin |
| `TreeIndex.X86Misfiles` | thirdparty/dlmalloc/dlmalloc.c:2848-2859 | so a chunk of 2^40 bytes gets the first tree bin instead of the last |
| `Tries.HeightBound` | thirdparty/dlmalloc/dlmalloc.c:2368-2403 | walks are no longer than the number of digits that tell sizes apart |
| `Tries.InsertHas` | thirdparty/dlmalloc/dlmalloc.c:3658-3707 | insertion adds one chunk and keeps all others |
| `Tries.InsertValid` | thirdparty/dlmalloc/dlmalloc.c:3658-3707 | insertion keeps sizes on the paths of their digits and one node a size |
| `Tries.RemoveHas` | thirdparty/dlmalloc/dlmalloc.c:3709-3795 | removal takes away one chunk and nothing else |
| `Tries.RemoveValid` | thirdparty/dlmalloc/dlmalloc.c:3709-3795 | removal keeps the trie in order, also when a leaf replaces an inner node |
| `Tries.LeastIsLeast` | thirdparty/dlmalloc/dlmalloc.c:4483-4490 | the least size of a trie is on its leftmost path |
| `Tries.CoversStep` | thirdparty/dlmalloc/dlmalloc.c:4452-4471 | going down the digits of the request, a better fit lies in the current subtree, the deepest right subtree passed by, or beyond it |
| `Tries.CoversDone` | thirdparty/dlmalloc/dlmalloc.c:4450-4490 | when the path ends, the best fit is the best size met or the least size of the deepest right subtree passed by |
| `Links.InsertLinked` | thirdparty/dlmalloc/dlmalloc.c:3674-3705 | writing the child or ring words of one chunk makes the words spell out the trie with that chunk inserted |
| `Links.RemoveLinked` | thirdparty/dlmalloc/dlmalloc.c:3726-3795 | replacing the node of a chunk anywhere in a trie spells out the trie with the chunk removed |
| `Links.UnlinkShared` | thirdparty/dlmalloc/dlmalloc.c:3729-3795 | the tree node of several equal chunks leaves: its `bk` neighbour takes parent and children |
| `Links.UnlinkLeaf` | thirdparty/dlmalloc/dlmalloc.c:3740-3767 | a leaf with a single chunk leaves nothing behind |
| `Links.UnlinkInner` | thirdparty/dlmalloc/dlmalloc.c:3740-3795 | an inner node with a single chunk is replaced by the leaf found by following right children first |
| `Bins.SmallInsertOk` | thirdparty/dlmalloc/dlmalloc.c:3580-3596 | linking into a small bin keeps all 64 bins in order |
| `Bins.SmallRemoveOk` | thirdparty/dlmalloc/dlmalloc.c:3599-3640 | unlinking from a small bin keeps all bins in order, and clears the map bit just when the bin gets empty |
| `Bins.TreeInsertOk` | thirdparty/dlmalloc/dlmalloc.c:3658-3707 | the same for linking into a tree bin |
| `Bins.TreeRemoveOk` | thirdparty/dlmalloc/dlmalloc.c:3726-3795 | the same for unlinking from a tree bin |
| `BinTable.FreeBins.constructor` | thirdparty/dlmalloc/dlmalloc.c:3921-3928 | a new allocator has empty bins, and they are in order |
| `BinTable.FreeBins.InsertSmall` | thirdparty/dlmalloc/dlmalloc.c:3580-3596 | the chunk is first in the bin of its size, all bins in order |
| `BinTable.FreeBins.UnlinkSmall` | thirdparty/dlmalloc/dlmalloc.c:3599-3622 | the chunk, and nothing else, is gone from its bin; `fd->bk` and `bk->fd` pointed back to it, so both checks of the source pass |
| `BinTable.FreeBins.UnlinkFirstSmall` | thirdparty/dlmalloc/dlmalloc.c:3625-3640 | the first chunk of a non-empty bin is taken; it has the size of the bin |
| `BinTable.FreeBins.FindPlace` | thirdparty/dlmalloc/dlmalloc.c:3671-3705 | the walk ends at the node of that size, or at the missing child where it belongs |
| `BinTable.FreeBins.InsertLarge` | thirdparty/dlmalloc/dlmalloc.c:3658-3707 | the chunk is in the trie of the bin of its size, all bins in order |
| `BinTable.FreeBins.FindLeaf` | thirdparty/dlmalloc/dlmalloc.c:3741-3748 | the search for a replacement ends at a leaf below the node, and finds none just when the node is a leaf |
| `BinTable.FreeBins.UnlinkLarge` | thirdparty/dlmalloc/dlmalloc.c:3726-3795 | the chunk, and nothing else, is gone from its trie, all bins in order |
| `BinTable.FreeBins.Insert` | thirdparty/dlmalloc/dlmalloc.c:3799-3801 | the binned chunks are the old ones and the new one |
| `BinTable.FreeBins.Unlink` | thirdparty/dlmalloc/dlmalloc.c:3803-3805 | the binned chunks are the old ones without this one |
| `BinTable.Remainder` | thirdparty/dlmalloc/dlmalloc.c:4456-4461 | the unsigned comparison `trem < rsize` holds just when the chunk is long enough and better, so no chunk that is too small is ever taken |
| `BinTable.FreeBins.ExactWalk` | thirdparty/dlmalloc/dlmalloc.c:4449-4472 | after the walk the best fit of the bin is the best one met or in the subtree that is left to search |
| `BinTable.FreeBins.LeastWalk` | thirdparty/dlmalloc/dlmalloc.c:4483-4490 | the leftmost walk ends with the better of the best so far and the least of the subtree |
| `BinTable.FreeBins.BestLarge` | thirdparty/dlmalloc/dlmalloc.c:4444-4490 | a chunk of the smallest size that fits, over all tree bins; none only if nothing fits |
| `BinTable.FreeBins.LeastTree` | thirdparty/dlmalloc/dlmalloc.c:4515-4530 | a chunk of the smallest size over all tree bins |
| `BinTable.FreeBins.ExactBin` | thirdparty/dlmalloc/dlmalloc.c:4589-4597 | the bin of the request or, if that is empty, the next one; neither only if both are empty |
| `BinTable.FreeBins.NextSmallBin` | thirdparty/dlmalloc/dlmalloc.c:4606-4615 | the first non-empty small bin after that of the request |
| `BinTable.FreeBins.TakeExact` | thirdparty/dlmalloc/dlmalloc.c:4592-4598 | takes the first chunk of the bin of the size asked for, or of the next size only if there is none of that size; nothing else leaves the bins |
| `BinTable.FreeBins.TakeNextSmall` | thirdparty/dlmalloc/dlmalloc.c:4606-4617 | takes the first chunk of the first small bin with one that fits, which is the smallest small chunk that does; nothing else leaves the bins |
| `Steps.TakeOk` | thirdparty/dlmalloc/dlmalloc.c:3092-3095 | giving a free chunk away whole keeps tiling, tags, feet and the distance of free chunks |
| `Steps.TakeSplitOk` | thirdparty/dlmalloc/dlmalloc.c:4622-4624 | the same for giving away the front of a free chunk |
| `Steps.TakeTopOk` | thirdparty/dlmalloc/dlmalloc.c:4668-4673 | the same for the front of the top chunk |
| `Steps.FreeHereOk` | thirdparty/dlmalloc/dlmalloc.c:4431-4433 | the same for freeing a chunk between chunks in use |
| `Steps.FreeIntoTopOk` | thirdparty/dlmalloc/dlmalloc.c:4404-4413 | the same for freeing a chunk before the top chunk |
| `Steps.FreeIntoNextOk` | thirdparty/dlmalloc/dlmalloc.c:4414-4430 | the same for joining a chunk with its free successor |
| `Steps.MergePrevOk` | thirdparty/dlmalloc/dlmalloc.c:4375-4390 | the same for joining a chunk with its free predecessor, found through `prev_foot` |
| `Steps.SplitUsedOk` | thirdparty/dlmalloc/dlmalloc.c:4831-4838 | the same for cutting a chunk in use in two |
| `Steps.AbsorbOk` | thirdparty/dlmalloc/dlmalloc.c:4866-4883 | the same for a chunk in use that takes its whole free successor |
| `Steps.AbsorbSomeOk` | thirdparty/dlmalloc/dlmalloc.c:4841-4865 | the same for a chunk in use that takes the front of the top chunk or of its free successor |
| `Segments.StartOk` | thirdparty/dlmalloc/dlmalloc.c:4186-4197 | the first region, all top chunk, meets the invariant |
| `Segments.AppendOk` | thirdparty/dlmalloc/dlmalloc.c:4216-4219 | extending the newest segment keeps the invariant |
| `Segments.PrependOk` | thirdparty/dlmalloc/dlmalloc.c:3950-3989 | putting a region before a segment keeps the invariant, with its new first chunk as a chunk in use |
| `Segments.AddOk` | thirdparty/dlmalloc/dlmalloc.c:3992-4042 | adding a segment keeps the invariant: the old segment is tiled up to a record of 48 bytes, behind which every word is a fencepost |
| `Grains.SystemSizeEnough` | thirdparty/dlmalloc/dlmalloc.c:4062-4064 | the rounded request exceeds the request just when nothing wrapped around, and then has room for the overhead of top chunk and alignment |
| `Grains.SystemSizeAligned` | thirdparty/dlmalloc/dlmalloc.c:2686-2699 | requests to the system are multiples of the chunk alignment |
| `Grains.GrainDoubles` | src/server/memory/dlmalloc.cc:143-144 | doubling the granularity with every region keeps it a power of two as long as regions fit the address space |
| `Requests.PadLeast` | thirdparty/dlmalloc/dlmalloc.c:2241-2246 | the padded request is the least multiple of 16, and at least 32, with room for 8 bytes besides those asked for |
| `Requests.SystemSizeLeast` | thirdparty/dlmalloc/dlmalloc.c:4062 | the size asked of the system is the least multiple of the granularity that holds the chunk and 96 bytes more |
| `Requests.RefusedMeans` | thirdparty/dlmalloc/dlmalloc.c:4062-4157 | the tests of `sys_alloc` in 64-bit arithmetic fail just when, in true numbers, the size is no word, goes over the footprint limit, or is refused by the system |
| `Requests.FreeSizes` | thirdparty/dlmalloc/dlmalloc.c:4585-4678 | the bins, designated victim and top chunk tell the lengths of all free chunks: none of the first two fits just when no free chunk but the top chunk is long enough |
| `Requests.OutMeans` | thirdparty/dlmalloc/dlmalloc.c:4585-4688 | so a request below the limit of 2^64 - 128 bytes fails just when every free chunk is too short for the chunk it needs and there is no region for it, in plain numbers (`OutOfMemory`) |
| `Dlmalloc.MallocState.constructor` | src/server/memory/dlmalloc.cc:42-51 | a zeroed allocator is valid and holds no blocks and no memory; granularity and footprint limit are those given |
| `Dlmalloc.MallocState.TakeWhole` | thirdparty/dlmalloc/dlmalloc.c:3092-3095 | a loose chunk is given away whole; every other chunk stays as it is |
| `Dlmalloc.MallocState.TakeFront` | thirdparty/dlmalloc/dlmalloc.c:2297-2298 | the front of a loose chunk is given away, the rest is loose; no chunk in use changes |
| `Dlmalloc.MallocState.ReplaceDv` | thirdparty/dlmalloc/dlmalloc.c:3644-3653 | the loose chunk is the designated victim; the old one, if there is one, is binned, and the bins hold nothing else new |
| `Dlmalloc.MallocState.TmallocSmall` | thirdparty/dlmalloc/dlmalloc.c:4515-4550 | gives away the smallest tree chunk with less than a minimal chunk to spare; what is worth keeping of it is the new designated victim, the old one is binned |
| `Dlmalloc.MallocState.TmallocLarge` | thirdparty/dlmalloc/dlmalloc.c:4444-4512 | gives away the best fit of all tree bins, unless the designated victim fits as well; what is worth keeping of it is binned; fails, changing nothing, just when it should |
| `Dlmalloc.MallocState.AllocNextSmall` | thirdparty/dlmalloc/dlmalloc.c:4605-4636 | with no exact fit and too small a victim: the best fit of all bins, or nothing if none fits |
| `Dlmalloc.MallocState.AllocSmall` | thirdparty/dlmalloc/dlmalloc.c:4585-4636 | the order of preference for small requests, the remainder as the new designated victim, and what is known about the bins when it fails |
| `Dlmalloc.MallocState.AllocVictim` | thirdparty/dlmalloc/dlmalloc.c:4648-4666 | the designated victim is split, its rest staying the victim, or given away whole if too little would be left |
| `Dlmalloc.MallocState.AllocFromTop` | thirdparty/dlmalloc/dlmalloc.c:4668-4678 | exactly the requested bytes come from the top chunk |
| `Dlmalloc.MallocState.AllocFree` | thirdparty/dlmalloc/dlmalloc.c:4585-4678 | a block comes from the chunk that the documented policy names, with less than a minimal chunk to spare, and the rest of it goes where `RestFiled` says: victim, bin or top chunk; nothing changes just when no free chunk and not the top chunk is long enough |
| `Dlmalloc.MallocState.FirstRegion` | thirdparty/dlmalloc/dlmalloc.c:4186-4205 | the first region makes the allocator ready, all of it top chunk but the overhead; it has the least address |
| `Dlmalloc.MallocState.AppendRegion` | thirdparty/dlmalloc/dlmalloc.c:4213-4219 | the top chunk grows by the whole region and stays where it is |
| `Dlmalloc.MallocState.PutFenceposts` | thirdparty/dlmalloc/dlmalloc.c:4020-4030 | every eighth byte from the record to the end of the segment starts a fencepost; the number written is exactly how many fit, and at least two |
| `Dlmalloc.MallocState.AddSegment` | thirdparty/dlmalloc/dlmalloc.c:3992-4042 | the new segment is all top chunk; the old top chunk becomes a record of 48 bytes, fenceposts behind it, and a binned chunk of all the bytes before it; there is one more record; no block changes |
| `Filings.RecordIsThere` | thirdparty/dlmalloc/dlmalloc.c:3994-4001 | the record lies as far back in the old segment as it must for itself and two fenceposts, aligned to 16, or takes the whole top chunk if less than a minimal chunk would be left of that: there is one such place, and the source computes it |
| `Dlmalloc.MallocState.PrependAlloc` | thirdparty/dlmalloc/dlmalloc.c:3950-3989 | a chunk of exactly the requested size, the first of the region; the rest joins the first chunk of the old segment if that is free, be it top chunk, victim or binned, or is binned |
| `Dlmalloc.MallocState.MergeRegion` | thirdparty/dlmalloc/dlmalloc.c:4207-4237 | a region extends the newest segment if it starts where that ends, or else goes before the segment that starts where it ends, or else is a new segment; each way determines top chunk, victim and bins afterwards (`RegionFiled`); the region is part of an old segment or the newest, with one more record; segment sizes grow by it; the least address is kept |
| `Dlmalloc.MallocState.TakeRegion` | thirdparty/dlmalloc/dlmalloc.c:4181-4237 | the same with first-time set-up; footprint and peak footprint are exact |
| `Dlmalloc.MallocState.UseRegion` | thirdparty/dlmalloc/dlmalloc.c:4181-4248 | then a chunk of exactly the requested size comes from the region, and top chunk, victim and bins are determined (`Served`) |
| `Dlmalloc.MallocState.SysAlloc` | thirdparty/dlmalloc/dlmalloc.c:4047-4253 | fails, changing nothing, just when no region of the size needed can be had (`Requests.Refused`); otherwise always satisfies the request from exactly the region offered, charges it to the footprint and doubles the granularity |
| `Dlmalloc.MallocState.Provide` | thirdparty/dlmalloc/dlmalloc.c:4554-4688 | the search for memory that malloc, and memalign through it, makes: it fails just when every free chunk is too short and there is no region (`Exhausted`, in plain numbers); the chunk has the size the policy gives; the system is asked just when nothing free is long enough, and then exactly its region is taken in and charged; what is left over is filed as `Leftover` says |
| `Dlmalloc.MallocState.Malloc` | thirdparty/dlmalloc/dlmalloc.c:4554-4688 | keeps the invariant; a new block of at least the requested bytes and less than a minimal chunk over the padded request, with the chunk and the size that the policy names; what is left over goes where the policy says: victim, bin or top chunk; all other blocks as they were; segments, records, footprint and granularity stay, or change by exactly one region; 0 just when the request has 2^64 - 128 bytes or more, or every free chunk is too short for the chunk it needs and there is no region for it |
| `Dlmalloc.MallocState.DisposeForward` | thirdparty/dlmalloc/dlmalloc.c:4402-4439 | joins with whatever free chunk follows and files the whole: as top chunk if that is among it, or else as the victim if that is, or else in a bin; nothing else is filed or leaves its place |
| `Filings.ForwardFiled` | thirdparty/dlmalloc/dlmalloc.c:4402-4439 | the branches after the join with the predecessor come to that rule: with the top chunk behind it a victim is given up, with the victim behind or before it the victim grows, and a binned neighbour leaves its bin |
| `Dlmalloc.MallocState.Dispose` | thirdparty/dlmalloc/dlmalloc.c:4373-4439 | the freed chunk is joined with both free neighbours and the whole filed as top chunk, victim or in a bin, in this order of precedence (`FreedFiled`); the corruption branches are never taken, and no other chunk in use changes |
| `Dlmalloc.MallocState.Free` | thirdparty/dlmalloc/dlmalloc.c:4692-4799 | keeps the invariant; exactly this block is gone, all its bytes lie in one free chunk, and that is filed as for `Dispose`: top chunk, victim and bins afterwards are determined; all other chunks in use, the segments and the records are as they were; free of null does nothing |
| `Dlmalloc.MallocState.InUseChecks` | thirdparty/dlmalloc/dlmalloc.c:4826-4827 | the address and in-use checks pass for every block a caller holds |
| `Dlmalloc.MallocState.Shrink` | thirdparty/dlmalloc/dlmalloc.c:4831-4840 | the block keeps exactly the padded request, the rest is freed and filed as for `Dispose` |
| `Dlmalloc.MallocState.Grow` | thirdparty/dlmalloc/dlmalloc.c:4841-4892 | succeeds just when top chunk, victim or free successor have room, takes bytes from nowhere else, and leaves the rest as top chunk, victim or binned chunk where it was, or takes it along if it is less than a minimal chunk (`Resized`) |
| `Dlmalloc.MallocState.TryRealloc` | thirdparty/dlmalloc/dlmalloc.c:4821-4898 | succeeds, in place, just when there is room; then the block has the padded request with less than a minimal chunk to spare, top chunk, victim and bins are determined (`Resized`) and all other blocks are as they were; otherwise nothing changes |
| `Dlmalloc.MallocState.ResizeBlock` | thirdparty/dlmalloc/dlmalloc.c:5214-5224 | the same with the invariant of the allocator kept |
| `Dlmalloc.MallocState.MoveBlock` | thirdparty/dlmalloc/dlmalloc.c:5227-5234 | malloc, copy and free: fails just when malloc does; copies all that both blocks have, and at least all that was asked for of the old one if the new one holds it; the bytes of the old block are free afterwards; the state is that of an allocation and then of a free |
| `Dlmalloc.MallocState.Realloc` | thirdparty/dlmalloc/dlmalloc.c:5195-5238 | in place just when there is room; fails just when the request has 2^64 - 128 bytes or more, or there is no room and malloc would fail, and then changes nothing; if moved, the bytes copied are all that both blocks have and the old block is freed as by free; either way top chunk, victim, bins and account are determined; a null block is malloc |
| `Alignments.CallocExact` | thirdparty/dlmalloc/dlmalloc.c:4804-4808 | the overflow test of calloc is exact, for all pairs of words |
| `Dlmalloc.MallocState.Calloc` | thirdparty/dlmalloc/dlmalloc.c:4801-4814 | a block for the true product, never for a wrapped one, allocated as malloc would; 0 just when the product has 2^64 - 128 bytes or more or malloc of it fails |
| `Alignments.RoundAlignment` | thirdparty/dlmalloc/dlmalloc.c:4902-4908 | the alignment is the least power of two that is at least 32 and at least the one asked for |
| `Alignments.RoundingNeverEnds` | thirdparty/dlmalloc/dlmalloc.c:4904-4908 | for alignments above 2^63 that are no power of two the loop never ends: its n-th value, 32 doubled n times in 64 bits, is below the alignment for every n |
| `Alignments.LeaderFits` | thirdparty/dlmalloc/dlmalloc.c:4931-4938 | the place chosen is aligned, leaves a leader that is a whole chunk, and has room for the request after it |
| `Alignments.FirstPlace` | thirdparty/dlmalloc/dlmalloc.c:4931-4935 | the place chosen is the first aligned address that is the one malloc gave or leaves at least 32 bytes before it |
| `Alignments.SpareBytes` | thirdparty/dlmalloc/dlmalloc.c:4922-4962 | for every chunk that malloc may give to memalign, what is left to spare after aligning and trimming; it is a whole minimal chunk just when malloc gave 16 bytes too many at an address 16 bytes short of alignment |
| `Dlmalloc.AskedFor` | thirdparty/dlmalloc/dlmalloc.c:4915-4916 | memalign asks malloc for the padded request, the alignment and 24 bytes, a chunk of 32 bytes over padded request and alignment |
| `Dlmalloc.MallocState.AlignChunk` | thirdparty/dlmalloc/dlmalloc.c:4922-4950 | the leader is freed and filed as for `Dispose`, the block moves to the aligned place |
| `Dlmalloc.MallocState.TrimChunk` | thirdparty/dlmalloc/dlmalloc.c:4952-4962 | a chunk more than a minimal chunk over the request is cut to the request and the rest freed and filed as for `Dispose`; any other keeps its size, and nothing changes its place |
| `Dlmalloc.MallocState.AlignAndTrim` | thirdparty/dlmalloc/dlmalloc.c:4922-4962 | leader and trailer are freed, in this order; the block is at the first aligned place that leaves a whole leader or none, and has exactly the size that `Alignments.Left` computes from the address and size malloc gave |
| `Dlmalloc.MallocState.Carve` | thirdparty/dlmalloc/dlmalloc.c:4918-4968 | the same with the invariant of the allocator kept, and the state determined from the one in which malloc was called |
| `Dlmalloc.MallocState.MemalignAt` | thirdparty/dlmalloc/dlmalloc.c:4909-4972 | an aligned new block at the first fitting place in the block `got` that malloc gave, the invariant kept, all other blocks as they were, the ends of `got` freed and filed (`Carved`); fails just when malloc of the larger request fails; exactly a minimal chunk is wasted just when `got` is `Stretched` |
| `Dlmalloc.MallocState.InternalMemalign` | thirdparty/dlmalloc/dlmalloc.c:4900-4972 | the same with the alignment rounded to the least power of two from 32 on; also fails just when request and alignment together have 2^64 - 128 bytes or more |
| `Dlmalloc.MallocState.Memalign` | thirdparty/dlmalloc/dlmalloc.c:5271-5276 | for every alignment up to 2^63: up to 16 it is malloc, with malloc's failure condition, policy and size and nothing wasted; above, it is `InternalMemalign`; the block is aligned to a power of two that is at least the alignment asked for |
| `Guarantees.PayloadFits` | thirdparty/dlmalloc/dlmalloc.c:3263-3308 | payloads are 16-aligned, inside a segment, hold the bytes asked for and waste less than a minimal chunk; exactly one only if memalign left it so |
| `Guarantees.PayloadsDisjoint` | thirdparty/dlmalloc/dlmalloc.c:3433-3461 | payloads of different blocks never overlap |
| `Guarantees.PayloadWrites` | thirdparty/dlmalloc/dlmalloc.c:3263-3308 | whatever a caller writes into its payload, the invariant still holds |
| `Guarantees.LinksInside` | thirdparty/dlmalloc/dlmalloc.c:2197-2203 | the link words of a binned chunk, four more for a tree chunk, lie inside it and touch no header, no `prev_foot` and no payload, so callers and bins never overwrite each other |
| `Guarantees.SpareChunk` | thirdparty/dlmalloc/dlmalloc.c:4952-4962 | a state of the invariant in which memalign of 24 bytes to 32 wastes exactly a minimal chunk: the policy leaves malloc no choice, and its block is stretched |
| `Guarantees.Conservation` | thirdparty/dlmalloc/dlmalloc.c:3433-3491 | bytes in use, free bytes and top bytes, with an overhead of 16 to 88 bytes a segment, and exactly the trailer and the alignment for the newest, sum to the segment sizes: no byte is lost |
| `Guarantees.RecordCount` | thirdparty/dlmalloc/dlmalloc.c:4007-4018 | there is one record for every segment but the newest |
| `Guarantees.OldSegmentEnds` | thirdparty/dlmalloc/dlmalloc.c:4007-4030 | every segment but the newest ends in a chunk of 48 bytes in use and then in at least 32 bytes with a fencepost in every word |
| `Guarantees.NeverReleased` | thirdparty/dlmalloc/dlmalloc.c:4270-4272 | no segment that ends 8 bytes off alignment passes the test for release: its record and fenceposts are in the way |
| `Guarantees.RegionHalfway` | src/server/memory/dlmalloc.cc:124-153 | a region that starts one word after a page ends 8 bytes off alignment, whatever size was asked for |
| `Guarantees.HalfwayKept` | src/server/memory/dlmalloc.cc:124-153 | all of vineyard's segments end so: whatever way an operation takes in a region that starts one word after a page, every segment still ends 8 bytes off alignment |
| `HashPolicies.ModuloEnough` | thirdparty/flat_hash_map/flat_hash_map.hpp:500-503 | with slots taken modulo the table size, growing can go far enough just when no two keys have the same hash |
| `RobinHood.Table.constructor` | thirdparty/flat_hash_map/flat_hash_map.hpp:584-588 | the default table is valid and empty |
| `RobinHood.LookupsAre` | thirdparty/flat_hash_map/flat_hash_map.hpp:1184-1188 | the longest way an entry may be from home is the binary logarithm of the number of slots, but at least four |
| `RobinHood.Table.Probe` | thirdparty/flat_hash_map/flat_hash_map.hpp:954-966 | stops at the entry with the key, or at the slot where it belongs, the first one closer to its home; never runs past the sentinel |
| `RobinHood.Table.Find` | thirdparty/flat_hash_map/flat_hash_map.hpp:918-928 | an entry just when the key is in the map, with its value; otherwise the end |
| `RobinHood.Table.MoveAlong` | thirdparty/flat_hash_map/flat_hash_map.hpp:1229-1253 | the displacement loop ends at an empty slot just when the old slots have one before an entry would reach the limit (`RunFits`); nothing but the entry on its way is missing |
| `RobinHood.Table.Displace` | thirdparty/flat_hash_map/flat_hash_map.hpp:1225-1254 | the key is inserted and all else kept just when the displaced run fits; otherwise after the last swap the slots hold exactly the old contents again |
| `RobinHood.AtHome` | thirdparty/flat_hash_map/flat_hash_map.hpp:1210-1256 | if no two keys ask for the same slot, every entry is in its own, whatever insertions and erasures came before |
| `RobinHood.HomeEmpty` | thirdparty/flat_hash_map/flat_hash_map.hpp:1213-1223 | and then the slot a new key asks for is empty |
| `RobinHood.Table.EmplaceNewKey` | thirdparty/flat_hash_map/flat_hash_map.hpp:1210-1256 | the new contents are the old ones and the new pair; the table stays as it is just when the entry fits at a load of at most one half, and grows otherwise, to the sizes of `Grow`; succeeds whenever growing goes far enough |
| `RobinHood.Table.Emplace` | thirdparty/flat_hash_map/flat_hash_map.hpp:954-966 | map insertion: an existing key stays untouched, a new one is added, the returned slot holds it; at most half of the slots are in use; in the same array just when there is room, and always if growing goes far enough for the keys to be apart |
| `RobinHood.Table.Grow` | thirdparty/flat_hash_map/flat_hash_map.hpp:1256-1259 | the contents stay the same; the number of slots is the next size from four or twice as many on, or comes from that by growing so again |
| `RobinHood.Table.Rehash` | thirdparty/flat_hash_map/flat_hash_map.hpp:1003-1036 | the contents stay the same, also for a table whose entries were out of place; the number of slots is the next size from what is asked for and the load demands, or comes from that by growing; succeeds whenever growing goes far enough |
| `RobinHood.Table.Rebuild` | thirdparty/flat_hash_map/flat_hash_map.hpp:1014-1035 | re-emplacing every entry loses and duplicates nothing, and succeeds whenever growing goes far enough; the number of slots is the one asked for or comes from that by growing |
| `RobinHood.Table.Erase` | thirdparty/flat_hash_map/flat_hash_map.hpp:1049-1060 | exactly one key is gone, and every other one can still be found |
| `RobinHood.Table.CloseGap` | thirdparty/flat_hash_map/flat_hash_map.hpp:1076-1086 | shifting by less and less restores the probe invariant; the entry after the range ends where the returned iterator points |
| `RobinHood.Table.EraseRange` | thirdparty/flat_hash_map/flat_hash_map.hpp:1062-1087 | exactly the entries of the range are gone |
| `RobinHood.Table.EraseKey` | thirdparty/flat_hash_map/flat_hash_map.hpp:1089-1099 | map removal, and the number of keys removed |
| `RobinHood.Table.Keys` | thirdparty/flat_hash_map/flat_hash_map.hpp:885-892 | iteration meets every key once |
| `Bytell.ControlBytes` | thirdparty/flat_hash_map/bytell_hash_map.hpp:30-44 | the four kinds of control byte never collide: 255 is empty, 254 reserved, and of the others those below 128 are direct hits; the low seven bits are the jump code |
| `Bytell.NearJumps` | thirdparty/flat_hash_map/bytell_hash_map.hpp:46-54 | the first 16 jump distances are the numbers from 0 on |
| `Bytell.MiddleJumps` | thirdparty/flat_hash_map/bytell_hash_map.hpp:47-60 | the next 66 are the triangular numbers after 15, each in its turn |
| `Bytell.FarJumps` | thirdparty/flat_hash_map/bytell_hash_map.hpp:49-71 | the last 44 are triangular numbers |
| `Bytell.HopsAround` | thirdparty/flat_hash_map/bytell_hash_map.hpp:822-827 | a jump code leads as many slots further on as its distance says, going round the table |
| `Bytell.ExtendChain` | thirdparty/flat_hash_map/bytell_hash_map.hpp:930-933 | linking a free slot after the last entry keeps all chains acyclic, disjoint and reachable from their heads |
| `Bytell.Relocate` | thirdparty/flat_hash_map/bytell_hash_map.hpp:886-902 | one relocation keeps what is already rebuilt and what is still to move apart and intact |
| `BytellTable.Table.Walk` | thirdparty/flat_hash_map/bytell_hash_map.hpp:460-487 | ends at the key, at the last entry of its chain, or at the slot where its chain would start |
| `BytellTable.Table.Find` | thirdparty/flat_hash_map/bytell_hash_map.hpp:405-432 | an entry just when the key is in the map, with its value |
| `BytellTable.Table.FindFree` | thirdparty/flat_hash_map/bytell_hash_map.hpp:955-965 | the first jump code to an empty slot, or 0 only if no jump leads to one |
| `BytellTable.Table.FindParent` | thirdparty/flat_hash_map/bytell_hash_map.hpp:943-953 | the entry before a given one on its chain |
| `BytellTable.Table.RelocateTail` | thirdparty/flat_hash_map/bytell_hash_map.hpp:886-908 | the whole tail is relocated and its slot freed just when every entry in turn finds a free slot (`TailFits`); otherwise every entry is still in some slot |
| `BytellTable.Table.MakeRoom` | thirdparty/flat_hash_map/bytell_hash_map.hpp:876-908 | a slot held by a foreign chain is freed with every chain intact just when the tail from it on can move; otherwise the contents are unchanged for the rebuild |
| `BytellTable.AtHome` | thirdparty/flat_hash_map/bytell_hash_map.hpp:860-935 | if no two keys ask for the same slot, every entry is in its own |
| `BytellTable.HomeEmpty` | thirdparty/flat_hash_map/bytell_hash_map.hpp:860-875 | and then the slot a new key asks for is empty and starts no chain |
| `BytellTable.Table.EmplaceDirectHit` | thirdparty/flat_hash_map/bytell_hash_map.hpp:860-914 | the new pair is added and nothing lost or duplicated, also through the reserved marker and a rehash; without growing just when one more entry fills at most 15 of 16 slots and the slot is empty or can be freed |
| `BytellTable.Table.EmplaceNewKey` | thirdparty/flat_hash_map/bytell_hash_map.hpp:916-935 | the same for a key that goes to the end of its chain; without growing just when one more entry fills at most 15 of 16 slots and a jump leads to a free slot |
| `BytellTable.Table.Emplace` | thirdparty/flat_hash_map/bytell_hash_map.hpp:459-487 | map insertion, with the exact condition for not growing, a load of at most 15 of 16 slots, and success whenever growing goes far enough, as for the Robin Hood table |
| `BytellTable.Table.Grow` | thirdparty/flat_hash_map/bytell_hash_map.hpp:967-970 | the contents stay the same; the number of slots is the next size from ten or twice as many on, or comes from that by growing so again |
| `BytellTable.Table.Rehash` | thirdparty/flat_hash_map/bytell_hash_map.hpp:524-570 | the contents stay the same, also for a table with entries out of reach; the number of slots is the next size from what is asked for and the load demands, or comes from that by growing; succeeds whenever growing goes far enough |
| `BytellTable.Table.Rebuild` | thirdparty/flat_hash_map/bytell_hash_map.hpp:535-569 | re-emplacing every entry, skipping empty and reserved slots, loses and duplicates nothing, and succeeds whenever growing goes far enough; the number of slots is the one asked for or comes from that by growing |
| `BytellTable.Table.LastTwo` | thirdparty/flat_hash_map/bytell_hash_map.hpp:588-594 | the last two entries of a chain |
| `BytellTable.Table.Erase` | thirdparty/flat_hash_map/bytell_hash_map.hpp:583-610 | exactly one key is gone; only the last entry of its chain moves |
| `BytellTable.Table.Depth` | thirdparty/flat_hash_map/bytell_hash_map.hpp:626-642 | the distance of an entry from the head of its chain |
| `BytellTable.NotLast` | thirdparty/flat_hash_map/bytell_hash_map.hpp:644-648 | an entry still to be erased is never the one that an erase moves |
| `BytellTable.Table.EraseInOrder` | thirdparty/flat_hash_map/bytell_hash_map.hpp:645-648 | erasing from the deepest on removes exactly the listed entries |
| `BytellTable.Table.NextEntry` | thirdparty/flat_hash_map/bytell_hash_map.hpp:342-353 | the next entry down the slots, or the end |
| `BytellTable.Table.Clear` | thirdparty/flat_hash_map/bytell_hash_map.hpp:668-686 | every slot is empty and the map too |
| `BytellTable.Table.EraseRange` | thirdparty/flat_hash_map/bytell_hash_map.hpp:612-654 | exactly the entries of the range are gone, in all four cases of the source; the iterator returned is at the slot where the range began if an entry has moved there, otherwise at the next entry |
| `Framing.HeaderRoundTrip` | src/client/io.cc:152-155 | the eight header bytes give the length back, for every 64-bit length |
| `Framing.FrameBytes` | src/client/io.cc:152-157 | a message goes out behind eight bytes, its length in base 256 with the lowest digit first |
| `Framing.Sender.SendBytes` | src/client/io.cc:130-150 | for every schedule of short writes, retries and failures a prefix of the data is written, all of it exactly on success; how far it gets and how many calls it takes are determined (`Ran`): it ends with the call that completes the data, the first that fails, or the last |
| `Framing.Sender.SendMessage` | src/client/io.cc:152-157 | the same for a message behind its length |
| `Framing.Receiver.RecvBytes` | src/client/io.cc:159-180 | the bytes received are the next ones of the stream, and only those; how far it gets and how many calls it takes are determined as for sending, but a call that finds nothing left also fails |
| `Framing.Receiver.RecvMessage` | src/client/io.cc:182-188 | on success the next message; for a message that is waiting, the outcome is determined: the header and then the message are received unless a call fails or the calls run out |
| `Framing.FramesPrefix` | src/client/io.cc:152-188 | a stream can be cut into messages in one way only |
| `Framing.Transfer` | src/client/io.cc:130-188 | for every pair of schedules the messages received are a prefix of those sent, byte for byte; and every message is among them for which on both sides, before a call fails, at least as many calls move bytes as there are bytes up to its end |
| `Protocols.ObjectRoundTrip` | modules/migrate/protocols.cc:57-72 | the message has this type and these fields and no others, reading undoes writing, and the type is recognized |
| `Protocols.BlobRoundTrip` | modules/migrate/protocols.cc:74-89 | the same for blob messages |
| `Metadata.BlobIds` | src/common/util/uuid.h:59 | blob ids are those in the upper half of the 64-bit numbers |
| `Metadata.AllBlobs` | modules/migrate/object_migration.cc:117-132 | for a local tree the blobs collected are exactly the blobs in it |
| `Metadata.NotBelow` | modules/migrate/object_migration.cc:210-243 | with one object per id, an object never contains itself, so it is not yet translated when its members are |
| `Migration.ObjectMigration.GetBlobList` | modules/migrate/object_migration.cc:117-132 | adds the ids of the upper half in the tree that are not below an object of another instance, and no others |
| `Migration.ObjectMigration.SendObjectMeta` | modules/migrate/object_migration.cc:100-115 | an object named twice is sent once; its blobs are collected; fails just when the object is unknown |
| `Migration.ObjectMigration.SendPieces` | modules/migrate/object_migration.cc:67-75 | the pieces are together the blob; each has at most a mebibyte, and all but the last exactly that |
| `Migration.ObjectMigration.Migrate` | modules/migrate/object_migration.cc:54-83 | the stream is that of a run which sends each object and each reachable blob once and then the exit request; fails just when an object is unknown |
| `Migration.MigrationServer.ReadMessage` | modules/migrate/object_migration.cc:142-149 | a waiting message is read and nothing more |
| `Migration.MigrationServer.ReadPieces` | modules/migrate/object_migration.cc:169-178 | the pieces read are together the next bytes of the stream |
| `Migration.MigrationServer.TakeBlob` | modules/migrate/object_migration.cc:163-181 | the blob exists, on this instance and with no members, under an id that was not in use, with the same bytes; the store gains nothing else, and the translation knows it |
| `Migration.AllHere` | modules/migrate/object_migration.cc:182-198 | at the exit request every blob of every received tree is translated |
| `Migration.MigrationServer.CreateObject` | modules/migrate/object_migration.cc:210-263 | memoised substitution of ids from the leaves up: the copy is isomorphic to the tree under the translation and all of it is on this instance, translations are never changed, only members of the tree are added; what the store gains are exactly the copies of the ids translated meanwhile and of the tree itself, all under new ids |
| `Migration.MigrationServer.Translate` | modules/migrate/object_migration.cc:217-238 | an id is looked up, leaving the store alone, or its object created and entered; every object the store gains is the copy of an id translated meanwhile |
| `Migration.MigrationServer.BuildAll` | modules/migrate/object_migration.cc:182-198 | after the exit request every received object is translated, and the store has gained their copies and nothing else |
| `Migration.MigrationServer.Start` | modules/migrate/object_migration.cc:134-208 | over the stream of a sender: every blob arrives once with its bytes before the exit request, every object gets a copy, and the store gains the copies of the translated ids and nothing else |
| `Migration.Run` | modules/migrate/object_migration.cc:54-263 | a whole migration of local objects succeeds just when they exist; then all of them have isomorphic copies, shared members share their copy, different objects have different copies, every member with an id of the upper half has a copy with identical bytes, all copies and their members are on the receiver's instance, and the receiver's store has gained these copies and nothing else; otherwise the receiver has changed nothing |

## Left out

- Dlmalloc.MallocState: directly mapped chunks, locks, footers, morecore, mspaces, `ialloc`, `posix_memalign`, `valloc`, `realloc_in_place`, `set_footprint_limit`, `mallopt` and statistics are not modelled.
- Dlmalloc.MallocState.Free: `sys_trim` and `release_unused_segments` are not modelled. Trimming first asks `mremap` to shrink a region whose base is not on a page, which the system call rejects, and then `fake_munmap` for part of a region, which it refuses; whole regions would be released, but none passes the test (`Guarantees.NeverReleased`, `Guarantees.HalfwayKept`). What remains of both are the counters `trim_check` and `release_checks`.
- Dlmalloc.MallocState.Free: modelled by the code of `dispose_chunk`, which does the same steps as the body of `dlfree`.
- Dlmalloc.MallocState.Realloc: memory contents are not modelled; `copied` is the number of bytes handed to the copy.
- Dlmalloc.MallocState.Calloc: the clearing of the memory is not modelled.
- Dlmalloc.MallocState.Memalign: alignments above 2^63 are excluded, because the rounding loop of the source does not end for them (`Alignments.RoundingNeverEnds`).
- Dlmalloc.MallocState.Memalign: a block may exceed its padded request by exactly `MIN_CHUNK_SIZE`, because the source cuts only what exceeds it by more; the contract says just when, `Guarantees.SpareChunk` shows that it happens, and the bound is strict for all other blocks.
- Dlmalloc.MallocState.SysAlloc: the segment list is a sequence; the words of the segment records other than their chunk are not modelled. The size written behind the top chunk, which nothing reads, is not claimed; its bit for the chunk before is.
- BinTable.FreeBins: the size that the pointer words of a binned chunk carry duplicates the size in its header; the run-time pointer checks appear as proved facts.
- TreeIndex.TreeIndexRange: models the portable form of `compute_tree_index`, which the allocator here uses; the x86 form puts chunks of 2^40 bytes and more into other bins (`TreeIndex.X86Agrees` says just which).
- RobinHood.Table.Emplace: growth need not end for arbitrary hashes, so `fuel` bounds how often it recurses. Without growth nothing depends on it; with growth success is claimed if the table may get so large that the keys are apart (`HashPolicies.Enough`), and nothing if it runs out before.
- HashPolicies.GoodIndex: every slot index is below the number of slots, also for the default table of one slot; there the Fibonacci policy may give 1 for 0, which reads another slot of the same constant, empty array.
- RobinHood.Table: the hash policy is a parameter; the list of primes, the modulo functions and their overflow, `log2`, allocators, copy and move, exceptions and other load factors than one half are abstracted or left out.
- BytellTable.Table.Emplace: as for the Robin Hood table, `fuel` bounds growth.
- BytellTable.Table: the layout in blocks of control bytes and data is one array of slots, and the hash policy a parameter.
- thirdparty/flat_hash_map/unordered_map.hpp: separate chaining would only repeat the map properties in an easier form.
- Framing.Transfer: schedules are finite; a call that is still being retried when the schedule ends is `Pending`.
- Framing.Sender: connection set-up and its retries are not modelled.
- Migration.MigrationServer.CreateObject: objects of other instances and of no instance (global objects), names, persistence and the entries `transient` and `nbytes` that the metadata service adds are not modelled; all objects live on the sender's instance, which is mapped to the receiver's.
- Migration.MigrationServer.CreateObject: member names are distinct and contain no dots, as metadata has them, so that `put_child` replaces the member it is meant for; ids are unbounded numbers and fresh ones are never reused, also for empty blobs.
- Migration.MigrationServer.Start: specified for streams that a sender writes; unknown message types are skipped as in the source, but nothing is claimed about other streams.
- Migration.ObjectMigration.Migrate: blobs are sent in any order, where the source sends them by id.
- Protocols.ObjectRoundTrip: the text form of messages is any faithful codec; the JSON library is not modelled.
