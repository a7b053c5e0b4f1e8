# Sparkle in Dafny

A verified model of the hard parts of the Sparkle repository: the `dlmalloc` heap
inside libffi, the Wayland wire layer and its code generator, the Wayland event loop,
the `were` object and signal core, the audio path, and the pixel and cursor code.
Each part is a model of the code's own steps, with its constants, integer widths and
error cases, and theorems about all inputs and all runs of that model.

    dafny verify dfyconfig.toml

| part | files |
|---|---|
| dlmalloc | `Words`, `BinMaps`, `SizeTrie`, `TreeBins`, `TreeLinks`, `TreeMemory`, `Rings`, `SmallLinks`, `BestFit`, `FreeBins`, `Tiling`, `HeapState`, `Dlmalloc` |
| Wayland wire layer | `WlBuffer`, `Connection`, `Signature`, `Closure`, `Receiver`, `WlMap`, `Scanner` |
| Wayland event loop | `EventLoop`, `WlList` |
| objects and signals | `Links`, `Cascade`, `Emission`, `Signals`, `Resource`, `HandlerQueue` |
| audio | `Audio` |
| pixels and cursors | `Damage`, `Pixels`, `Upload`, `Cursor` |

`Lists` holds the few definitions that several parts use.

How the state is modelled:

- `Dlmalloc.Heap` keeps the head words and footers by address, the top chunk and the
  bins. The bins are linked in memory: rings of fd and bk links for the small bins, and
  for the tree bins rings of equal sizes with child and parent links between their heads.
  The links stand for lists and trees, and every link operation is proved to do to the
  links what the list or tree operation does. `Valid()` is what the allocator's own `do_check_malloc_state` demands; it
  relates the tags to three ghost views: the chunk boundaries, the free chunks held in
  the bins, and the live blocks with the bytes asked for. `dlmalloc` and `dlfree` are
  proved to keep it, so it holds in every run.
- The Wayland rings are 4096-byte arrays with 32-bit counters that wrap around.
  Descriptors travel beside the bytes; what has been sent is a list of packets.
- A callback of the event loop is an arbitrary list of calls into the loop, of which
  the inadmissible ones, which would break a list, are skipped. The loop's memory is a map, so every access to a
  freed source would be an access outside the map.
- A handler of a signal is a link, a note, or does whatever a plan says: connect, break,
  collapse or emit. `Emission` gives the meaning of an emission on the connections, and
  `Signals.World`, which keeps the lists, is proved to do exactly that. Recursion has a bounded stack, and running out of it is an outcome of
  its own, so that "ends" means "ends on some stack".
- The call queue, and the collapse of a resource, are state machines whose steps
  interleave or nest in any order.
- Where the code does not keep a promise in general, the exact condition is proved:
  `Cascade.EndsExactly`, `Scanner.LookupPosition`, `Resource.OnlyFirstIsSafe`,
  `Damage.CopyStaysExactly`, `Damage.ReportedExactly`, `Cursor.PhaseExactly`,
  `WlMap.RemoveExactly`, `WlMap.InsertExactly`, `WlList.PassEndsExactly`,
  `Audio.FreeSpaceExactly`, `Closure.OwnHeaderExactly` and `Closure.RoundTrip`.

## Model

| member | source | states |
|---|---|---|
| `BinMaps.MarkDenotes` | foreign/libffi/src/dlmalloc.c:2350-2361 | setting a bin's bit in the 32-bit word adds exactly that bin to the set the word stands for |
| `BinMaps.ClearDenotes` | foreign/libffi/src/dlmalloc.c:2350-2361 | clearing a bin's bit removes exactly that bin |
| `BinMaps.LeftDenotes` | foreign/libffi/src/dlmalloc.c:2395-2395 | the left_bits mask keeps exactly the marked bins above the given one |
| `BinMaps.LeastDenotes` | foreign/libffi/src/dlmalloc.c:2377-2392 | the branch-free least-bit and bit-index computation yields the smallest marked bin, and a zero word means no bin |
| `BinMaps.IsMarked` | foreign/libffi/src/dlmalloc.c:2350-2361 | the bit test tells whether the bin is in the set |
| `BinMaps.LowestAbove` | foreign/libffi/src/dlmalloc.c:4180-4182 | the masked least bit is the lowest marked bin above the index, or there is none |
| `BinMaps.OneOrNext` | foreign/libffi/src/dlmalloc.c:4160-4164 | the two lowest bits of the shifted map find the bin or else the next one |
| `SizeTrie.KeyPicksHalf` | foreign/libffi/src/dlmalloc.c:2334-2341 | the sign bit of the shifted size sends every size to the half of the bin's size range it lies in, at every level |
| `SizeTrie.InsertItems` | foreign/libffi/src/dlmalloc.c:3040-3083 | inserting adds exactly the one chunk to the multiset of chunks |
| `SizeTrie.InsertKeepsTrie` | foreign/libffi/src/dlmalloc.c:3040-3083 | inserting keeps the trie: left sizes below right sizes, one node per size, equal sizes chained |
| `SizeTrie.UnlinkItems` | foreign/libffi/src/dlmalloc.c:3108-3177 | unlinking removes exactly the one chunk, wherever it is on its ring |
| `SizeTrie.UnlinkKeepsTrie` | foreign/libffi/src/dlmalloc.c:3108-3177 | unlinking keeps the trie, whether the node is replaced by a ring neighbour, by a leaf or by nothing |
| `TreeBins.LogStepsIsLog2` | foreign/libffi/src/dlmalloc.c:2314-2331 | the borrow arithmetic of compute_tree_index is the binary logarithm |
| `TreeBins.TreeIndexBelongs` | foreign/libffi/src/dlmalloc.c:2314-2345 | for every large size the computed bin's bounds contain the size |
| `TreeBins.BelongsUnique` | foreign/libffi/src/dlmalloc.c:2343-2345 | no two bins' bounds share a size |
| `TreeBins.InsertIntoBin` | foreign/libffi/src/dlmalloc.c:3040-3083 | insert_large_chunk keeps what do_check_tree demands of the bin and adds exactly the chunk |
| `TreeBins.UnlinkFromBin` | foreign/libffi/src/dlmalloc.c:3108-3177 | unlink_large_chunk keeps what do_check_tree demands of the bin and removes exactly the chunk |
| `SmallLinks.SmallBins.InsertSmallChunk` | foreign/libffi/src/dlmalloc.c:2969-2985 | the four stores put the chunk first on the bin's ring and leave all other rings alone, also when the empty bin's own links are stale |
| `SmallLinks.SmallBins.UnlinkSmallChunk` | foreign/libffi/src/dlmalloc.c:2988-3005 | exactly the chunk leaves its ring; equal neighbours mean exactly that the bin empties |
| `SmallLinks.SmallBins.UnlinkFirstSmallChunk` | foreign/libffi/src/dlmalloc.c:3008-3022 | the first chunk leaves its ring |
| `TreeLinks.InsertStands` | foreign/libffi/src/dlmalloc.c:3055-3083 | after the stores at the end of the descent the links stand for the tree with the chunk inserted |
| `TreeLinks.RingShrunk` | foreign/libffi/src/dlmalloc.c:3111-3120 | taking a chunk off its ring of equal sizes leaves the ring of the others, with its bk neighbour as head if the head went |
| `TreeLinks.LeafDropped` | foreign/libffi/src/dlmalloc.c:3122-3136 | clearing the slot that the walk finds takes the leaf off the tree and leaves its ring whole |
| `TreeLinks.TakenOver` | foreign/libffi/src/dlmalloc.c:3152-3176 | the replacement with parent and both children relinked stands for the new tree |
| `TreeLinks.UnlinkStands` | foreign/libffi/src/dlmalloc.c:3108-3177 | after unlink_large_chunk the links stand for the tree with the chunk unlinked, and nothing outside the tree has changed |
| `TreeLinks.ItemLocated` | foreign/libffi/src/dlmalloc.c:3108-3177 | every chunk of a trie is where the bits of its size lead |
| `TreeMemory.LinkedBins.Descend` | foreign/libffi/src/dlmalloc.c:3056-3083 | the loop ends on the ring of the size or at the empty child where the size belongs |
| `TreeMemory.LinkedBins.FindLeaf` | foreign/libffi/src/dlmalloc.c:3122-3130 | the walk over right and then left children finds the replacing leaf and the slot that leads to it |
| `TreeMemory.LinkedBins.InsertLargeChunk` | foreign/libffi/src/dlmalloc.c:3040-3083 | the links of all 32 bins stand for the old trees with the chunk inserted in the bin of its size |
| `TreeMemory.LinkedBins.UnlinkLargeChunk` | foreign/libffi/src/dlmalloc.c:3108-3177 | the links of all 32 bins stand for the old trees with exactly the chunk unlinked, and the bin's bit is cleared exactly when it empties |
| `BestFit.Leftmost` | foreign/libffi/src/dlmalloc.c:3768-3775 | following leftmost children finds the smallest size of the subtree or keeps a better candidate |
| `BestFit.SearchPath` | foreign/libffi/src/dlmalloc.c:3732-3757 | after the descent along the request's bits the best fit of the bin is the candidate or in the remembered right subtree |
| `BestFit.FindLarge` | foreign/libffi/src/dlmalloc.c:3726-3775 | the chunk found is the smallest chunk of all tree bins that fits, and none is found only if none fits |
| `BestFit.FindSmall` | foreign/libffi/src/dlmalloc.c:3799-3816 | the chunk found for a small request is the smallest of all tree bins |
| `BestFit.BestOfAllMeans` | foreign/libffi/src/dlmalloc.c:3726-3835 | "best" is about every chunk on every ring of every bin, not only about the nodes visited |
| `FreeBins.OnePlace` | foreign/libffi/src/dlmalloc.c:2790-2820 | a free chunk is the designated victim and in no bin, or in the one bin of its size exactly once |
| `FreeBins.NothingFits` | foreign/libffi/src/dlmalloc.c:4128-4250 | if victim, small bins and trees offer nothing, no free chunk is large enough |
| `FreeBins.NothingBetween` | foreign/libffi/src/dlmalloc.c:4155-4216 | if victim, small bins and trees have nothing between two sizes, no free chunk has |
| `FreeBins.Bins.InsertSmall` | foreign/libffi/src/dlmalloc.c:2969-2985 | the chunk is placed, bitmap and bin agree, nothing else moves |
| `FreeBins.Bins.UnlinkSmall` | foreign/libffi/src/dlmalloc.c:2988-3005 | the chunk leaves its bin and the bit is cleared exactly when the bin empties |
| `FreeBins.Bins.UnlinkFirst` | foreign/libffi/src/dlmalloc.c:3008-3022 | the first chunk of the bin, which has the bin's size, leaves it |
| `FreeBins.Bins.InsertLarge` | foreign/libffi/src/dlmalloc.c:3040-3083 | as InsertSmall, for the tree bins |
| `FreeBins.Bins.UnlinkLarge` | foreign/libffi/src/dlmalloc.c:3108-3177 | as UnlinkSmall, for the tree bins |
| `FreeBins.Bins.FindLargeChunk` | foreign/libffi/src/dlmalloc.c:3726-3775 | the search along the links of the bins yields the smallest fitting tree chunk, or none fits |
| `FreeBins.Bins.FindSmallestChunk` | foreign/libffi/src/dlmalloc.c:3799-3816 | the search along the links of the bins yields the smallest tree chunk |
| `FreeBins.Bins.InsertChunk` | foreign/libffi/src/dlmalloc.c:3181-3183 | the chunk joins the small bin or tree bin of its size |
| `FreeBins.Bins.UnlinkChunk` | foreign/libffi/src/dlmalloc.c:3185-3187 | exactly the chunk leaves its bin |
| `FreeBins.Bins.ReplaceDv` | foreign/libffi/src/dlmalloc.c:3026-3035 | the old victim goes to its bin and the new one takes its place |
| `Tiling.ByteHasChunk` | foreign/libffi/src/dlmalloc.c:2822-2854 | every byte of the segment below top lies in a chunk |
| `Tiling.ByteHasOneChunk` | foreign/libffi/src/dlmalloc.c:2822-2854 | no byte lies in two chunks |
| `Tiling.FootFindsPrevious` | foreign/libffi/src/dlmalloc.c:2666-2686 | where pinuse is clear, prev_foot leads to the free chunk that ends there |
| `Tiling.NoOverlap` | foreign/libffi/src/dlmalloc.c:2822-2854 | a chunk ends before or where the next boundary is |
| `Tiling.OccupyTiled` | foreign/libffi/src/dlmalloc.c:4169-4169 | marking a free chunk as used keeps chunks tiling the segment and all tags in agreement |
| `Tiling.SplitTopTiled` | foreign/libffi/src/dlmalloc.c:4238-4243 | splitting top keeps chunks tiling the segment, its end and all tags in agreement |
| `Tiling.SplitTiled` | foreign/libffi/src/dlmalloc.c:3780-3789 | splitting a free chunk keeps chunks tiling the segment and all tags in agreement |
| `Tiling.CoalesceTiled` | foreign/libffi/src/dlmalloc.c:4283-4347 | merging chunks keeps chunks tiling the segment and all tags in agreement |
| `HeapState.LiveBlocksApart` | foreign/libffi/src/dlmalloc.c:2689-2700 | live blocks are aligned, hold the bytes asked for and do not overlap |
| `HeapState.CoalesceHeap` | foreign/libffi/src/dlmalloc.c:4283-4347 | freeing merges with both free neighbours, so no two adjacent chunks are free |
| `HeapState.CoalesceTopHeap` | foreign/libffi/src/dlmalloc.c:4310-4323 | freeing next to top merges into top, and the segment ends where it did |
| `HeapState.OccupyHeap` | foreign/libffi/src/dlmalloc.c:4169-4169 | a free chunk that goes into use whole leaves no two free chunks adjacent and exactly one more live block |
| `HeapState.SplitHeap` | foreign/libffi/src/dlmalloc.c:4192-4195 | so does a chunk that is split, with its rest as a free chunk |
| `HeapState.SplitTopHeap` | foreign/libffi/src/dlmalloc.c:4238-4243 | so does the front of top, and the segment ends where it did |
| `HeapState.PreviousIsHeld` | foreign/libffi/src/dlmalloc.c:4283-4295 | where a block's pinuse is clear, the chunk before it is free and held |
| `Dlmalloc.RequestFits` | foreign/libffi/src/dlmalloc.c:1703-1708 | the padded request is the smallest chunk, or the least multiple of 8 with room for the bytes and the head |
| `Dlmalloc.DvComparison` | foreign/libffi/src/dlmalloc.c:3777-3777 | the unsigned comparison with the victim declines exactly if the victim fits at least as well |
| `Dlmalloc.SysSizeExactly` | foreign/libffi/src/dlmalloc.c:2147-2148 | what sys_alloc asks for is a multiple of the page, more than the request with its overhead and a byte by at most one page |
| `Dlmalloc.SysSizeWraps` | foreign/libffi/src/dlmalloc.c:3517-3519 | unless that sum wraps around, which is exactly when the result is no more than the request |
| `Dlmalloc.Heap.UseSmallBin` | foreign/libffi/src/dlmalloc.c:4162-4200 | serves from the first chunk of a small bin, whole or split with the rest as new victim, and keeps the heap invariant |
| `Dlmalloc.Heap.UseDv` | foreign/libffi/src/dlmalloc.c:4218-4236 | serves from the victim, split with the rest as victim or used up, and keeps the heap invariant |
| `Dlmalloc.Heap.UseTop` | foreign/libffi/src/dlmalloc.c:4238-4248 | serves from top and keeps the heap invariant |
| `Dlmalloc.Heap.SmallFromBins` | foreign/libffi/src/dlmalloc.c:4155-4207 | takes the first chunk of the request's own or the next small bin, or without a victim that fits the smallest chunk that does; declines a small request only if the victim is next or no chunk held fits |
| `Dlmalloc.Heap.LargeFromBins` | foreign/libffi/src/dlmalloc.c:4210-4216 | takes the smallest chunk that fits; declines a large request only if the victim is at least as small or no chunk held fits |
| `Dlmalloc.Heap.FromHeld` | foreign/libffi/src/dlmalloc.c:4155-4236 | the bins and the victim serve every request that a held chunk fits, with the chunk that should, and decline exactly the others |
| `Dlmalloc.Heap.UseBestTree` | foreign/libffi/src/dlmalloc.c:3726-3796 | tmalloc_large serves from the smallest fitting tree chunk, and declines only if none fits or the victim fits at least as well |
| `Dlmalloc.Heap.UseSmallestTree` | foreign/libffi/src/dlmalloc.c:3799-3835 | tmalloc_small serves from the smallest tree chunk |
| `Dlmalloc.Heap.Carve` | foreign/libffi/src/dlmalloc.c:3780-3789 | a chunk that has left its bin goes into use whole or in front, and keeps the invariant together with its rest |
| `Dlmalloc.Heap.SysAlloc` | foreign/libffi/src/dlmalloc.c:3513-3611 | fails exactly on wrap-around or refusal, otherwise the segment grows by exactly the space asked for and top serves the request |
| `Dlmalloc.Heap.Malloc` | foreign/libffi/src/dlmalloc.c:4128-4258 | keeps the whole heap invariant; a block returned was not in use, is large enough and leaves all live blocks alone; a held chunk serves whenever one fits: for a small request the first of its own small bin, or of the next, or the victim, or the smallest that fits, for a large one the smallest that fits, the victim if as small; its rest is held instead; only else top, or space from the system; 0 only if nothing held fits and the system adds nothing |
| `Dlmalloc.Heap.FreeBeforeUsed` | foreign/libffi/src/dlmalloc.c:4300-4304 | with a used chunk behind, the block and a free chunk before it become one free chunk in its bin, or the victim |
| `Dlmalloc.Heap.FreeBeforeTop` | foreign/libffi/src/dlmalloc.c:4313-4324 | with top behind, the block and a free chunk before it join top, and no byte of the segment is lost |
| `Dlmalloc.Heap.FreeBeforeFree` | foreign/libffi/src/dlmalloc.c:4325-4346 | with a free chunk behind, all become one free chunk in its bin, or the victim |
| `Dlmalloc.Heap.Free` | foreign/libffi/src/dlmalloc.c:4260-4358 | keeps the whole heap invariant and the end of the segment; exactly the one block stops being live and no other changes size; the victim stays, in a chunk that has swallowed it or in top |
| `WlBuffer.Buffer.Put` | foreign/wayland/src/connection.c:67-90 | appends, across the wrap of offset and counters; refuses more than 4096 bytes |
| `WlBuffer.Buffer.PutIov` | foreign/wayland/src/connection.c:93-114 | lists exactly the free space in order, unless the buffer is full |
| `WlBuffer.Buffer.GetIov` | foreign/wayland/src/connection.c:117-138 | lists exactly the contents in order, unless the buffer is empty |
| `WlBuffer.Buffer.Copy` | foreign/wayland/src/connection.c:141-153 | reads a prefix of the contents |
| `WlBuffer.Buffer.Consume` | foreign/wayland/src/connection.c:220-223 | drops a prefix of the contents |
| `WlBuffer.Buffer.Receive` | foreign/wayland/src/connection.c:331-367 | what recvmsg scatters over the free space is appended; a full buffer is an overflow |
| `WlBuffer.GatherRing` | foreign/wayland/src/connection.c:117-138 | what sendmsg gathers from the listed stretches is a prefix of the contents |
| `Connection.SendStep` | foreign/wayland/src/connection.c:281-322 | a partial send carries all queued descriptors with its bytes and keeps every message's descriptors in time |
| `Connection.PutFdStep` | foreign/wayland/src/connection.c:1012-1037 | queueing a descriptor of the next message keeps the sending invariant |
| `Connection.PutBytesStep` | foreign/wayland/src/connection.c:370-400 | queueing the bytes completes the message and keeps the sending invariant |
| `Connection.ReceiverHasDescriptors` | foreign/wayland/src/connection.c:1181-1235 | whoever has received the first byte of a message has received all its descriptors, at their place in the order |
| `Connection.IdleMeansNoDescriptors` | foreign/wayland/src/connection.c:281-322 | between messages an empty byte queue means an empty descriptor queue, and everything queued has been sent |
| `Connection.FlushEndsExactly` | foreign/wayland/src/connection.c:293-322 | a flush sends everything exactly when the answers up to some one are no failures and add up to what waits |
| `Connection.FlushCarries` | foreign/wayland/src/connection.c:293-317 | its packets carry, in order, exactly the bytes that are not left, and the first one all descriptors |
| `Connection.FailedFlush` | foreign/wayland/src/connection.c:306-312 | a flush that fails has sent one packet for each answer before the first failure, of that many bytes |
| `Connection.Connection.Flush` | foreign/wayland/src/connection.c:281-322 | sends exactly the packets that the answers allow, all descriptors with the first, and keeps the sending invariant; succeeds exactly if they empty the queue |
| `Connection.Connection.PutFd` | foreign/wayland/src/connection.c:422-431 | appends the descriptor, after a flush exactly at 28 waiting ones; fails exactly if that flush does, and then appends nothing |
| `Connection.Connection.Append` | foreign/wayland/src/connection.c:370-400 | write and queue flush exactly when the bytes do not fit, never overwrite unsent bytes and complete the message; they succeed exactly if the bytes fit the buffer and the queue, if need be after a flush that succeeds; after a failure the message is as incomplete as before and the invariant stands |
| `Connection.Connection.SendClosure` | foreign/wayland/src/connection.c:1181-1235 | descriptors and then bytes are queued, and the sending invariant holds for the longer list of messages; with enough answers it succeeds exactly for messages of at most 4096 bytes; after a failure a prefix of the descriptors stays queued |
| `Signature.GetNextArgument` | foreign/wayland/src/connection.c:434-455 | yields the next argument code with its nullability and the rest of the signature, NUL exactly at the end |
| `Signature.ArgCount` | foreign/wayland/src/connection.c:458-475 | counts exactly the arguments that get_next_argument yields |
| `WlMap.FreeLooksUpNull` | foreign/wayland/src/wayland-util.c:316-336 | every free slot looks up as NULL: all but the last are tagged, and the last holds 0 |
| `WlMap.SlotsConserved` | foreign/wayland/src/wayland-util.c:292-313 | live slots and free slots add up to the array length |
| `WlMap.Map.LiveAndFree` | foreign/wayland/src/wayland-util.c:169-359 | live ids are exactly the slots outside the free list |
| `WlMap.Map.InsertNew` | foreign/wayland/src/wayland-util.c:193-222 | with room, returns an id that was not live, changes no other id and takes the head of the free list or a new slot; without, exactly then, the id wraps to the other side or is too large for the free list |
| `WlMap.SlotExactly` | foreign/wayland/src/wayland-util.c:215-221 | a slot has an id of its own exactly below the limit that tells whether there is room |
| `WlMap.Map.InsertAt` | foreign/wayland/src/wayland-util.c:225-250 | sets the entry, or fails exactly if the id leaves a gap; the free list survives exactly unless the slot was free and gets a value or a flag |
| `WlMap.InsertExactly` | foreign/wayland/src/wayland-util.c:241-249 | setting an entry leaves a free list exactly when its slot was not free, or when NULL without flag cuts the list off there |
| `WlMap.ReserveExactly` | foreign/wayland/src/wayland-util.c:253-289 | accepted are exactly the next id of the other side and those that are there and empty |
| `WlMap.Map.ReserveNew` | foreign/wayland/src/wayland-util.c:253-289 | accepts exactly the next or an empty id of the other side |
| `WlMap.Map.Remove` | foreign/wayland/src/wayland-util.c:292-313 | a live own-side id becomes free and heads the free list, other ids keep their entries; the free list survives exactly if the id was live |
| `WlMap.RemoveExactly` | foreign/wayland/src/wayland-util.c:310-312 | removing leaves a free list exactly when the slot was not free; a second removal closes it into a circle |
| `WlMap.Map.Lookup` | foreign/wayland/src/wayland-util.c:316-336 | the data of a live id, NULL for every other |
| `WlMap.Map.LookupFlags` | foreign/wayland/src/wayland-util.c:339-359 | the flag of a live id, 0 for every other |
| `Closure.Marshal` | foreign/wayland/src/connection.c:592-661 | refuses exactly more than 20 arguments or a NULL where the signature allows none |
| `Closure.BufferSize` | foreign/wayland/src/connection.c:1041-1085 | is exactly the size of the encoding |
| `Closure.WidthExactly` | foreign/wayland/src/connection.c:1062-1084 | a string takes its length word and its bytes with the terminator, an array its length word and its bytes, each with the least padding to whole words; NULL and all else a word, a descriptor nothing |
| `Closure.ReadTextExactly` | foreign/wayland/src/connection.c:728-812 | for any bytes: the length word settles how many a string or array takes, with the least padding; it is refused exactly if they are not all there or a string is not terminated |
| `Closure.Serialize` | foreign/wayland/src/connection.c:1091-1178 | fails exactly if the buffer is too small; otherwise leaves an encoding of the closure, with free padding |
| `Closure.SerializeArg` | foreign/wayland/src/connection.c:1110-1163 | stores one argument, or fails exactly if the buffer ends before it |
| `Closure.SerializeArgs` | foreign/wayland/src/connection.c:1103-1166 | the loop stores all arguments behind the header, or fails exactly if they do not fit |
| `Closure.SerializeToBuffer` | foreign/wayland/src/connection.c:1209-1228 | the computed size always suffices and is filled exactly |
| `Closure.Demarshal` | foreign/wayland/src/connection.c:676-842 | consumes exactly the message whatever its header claims, and yields what the reference reader makes of its bytes, the descriptors and the peer's ids, or that reader's error; sender and opcode of fewer than 8 bytes come from beyond the message |
| `Closure.OwnHeaderExactly` | foreign/wayland/src/connection.c:702-704 | what is read as sender and opcode depends on the message alone exactly if it claims 8 bytes or more |
| `Closure.ShortExactly` | foreign/wayland/src/connection.c:706-717 | a message that claims fewer is refused exactly unless it takes descriptors only and they are there |
| `Closure.DemarshalArgs` | foreign/wayland/src/connection.c:704-828 | the loop reads the arguments up to the first error, as the reference reader does |
| `Closure.DemarshalArg` | foreign/wayland/src/connection.c:716-827 | each case takes exactly the bytes, descriptor or id of its argument, or fails with its error |
| `Closure.ReadBack` | foreign/wayland/src/connection.c:704-822 | reading one encoded argument gives the argument back |
| `Closure.RoundTrip` | foreign/wayland/src/connection.c:676-842 | reading encoded arguments gives them back, takes exactly their descriptors and reserves exactly their new ids; it fails exactly on a NULL id where none is allowed or a refused new id |
| `Closure.HeaderRoundTrip` | foreign/wayland/src/connection.c:1166-1169 | the header gives back sender, low 16 opcode bits and exact size for messages up to 4096 bytes |
| `Closure.MessageRoundTrip` | foreign/wayland/src/connection.c:676-842 | the round trip of a whole message |
| `Closure.AcceptedIdsAreReal` | foreign/wayland/src/connection.c:592-661 | a closure that marshalling accepts meets the round trip's condition on ids if its objects have ids |
| `Receiver.NextMessage` | foreign/wayland/src/wayland-server.c:346-362 | what waits at the receiver begins with the next message, and with all its descriptors as soon as one byte of it is there |
| `Receiver.Peer.Read` | foreign/wayland/src/connection.c:331-367 | reading on in any portions keeps the receiver's place in the stream |
| `Receiver.Peer.Next` | foreign/wayland/src/wayland-server.c:356-400 | the two sides together: over every run of sends, partial flushes and reads the receiver takes the closures sent, in order and with their descriptors, exactly as far as they have arrived, and refuses one exactly for its ids; the map needs to know the sender's interface only when the message is taken, so ids may be used again |
| `Receiver.Peer.Longer` | foreign/wayland/src/connection.c:281-322 | whatever the sender sends meanwhile, the receiver keeps its place |
| `Scanner.EmitSignature` | foreign/wayland/src/scanner.c:1679-1720 | prints the since prefix and the codes of all arguments |
| `Scanner.SignatureParsesBack` | foreign/wayland/src/scanner.c:1679-1720 | the runtime reads max(1, since) and exactly the codes and nullability of the arguments, an untyped new_id as s, u, n with its `?` on the s |
| `Scanner.ForwardDeclarations` | foreign/wayland/src/scanner.c:1427-1460 | marks exactly the messages without interfaces; the NULL run is as long as the longest of them |
| `Scanner.EmitTypes` | foreign/wayland/src/scanner.c:1631-1663 | appends exactly the interfaces of the messages that have any, one message after the other, and each index points to its message's; all-null messages use the NULL run |
| `Scanner.EmitTable` | foreign/wayland/src/scanner.c:1760-1782 | the table is a NULL run as long as the longest message without interfaces, and then exactly the rows of all lists of the protocol; it is right for every message |
| `Scanner.RuntimePosition` | foreign/wayland/src/connection.c:874-893 | an argument's runtime position is two further on for every untyped new_id before it |
| `Scanner.LookupPosition` | foreign/wayland/src/connection.c:893-893 | the runtime indexes the entry of the argument's own declaration exactly when no untyped new_id precedes it |
| `Scanner.LookupFindsInterface` | foreign/wayland/src/connection.c:874-893 | then types[i] is the declared interface of an object argument |
| `Scanner.LookupMissesInterface` | foreign/wayland/src/connection.c:874-893 | a message where the runtime looks past its own entries |
| `Links.ReachClosed` | were/were_connect.h:104-110 | what a reached object leads to along links is reached |
| `Links.ReachSplit` | were/were_connect.h:104-110 | whatever is reached beyond the start is reached through one of its links |
| `Cascade.CollapseExactly` | were/were_capability_integrator.cpp:32-46 | a collapse that ends, cycles or not, disintegrates exactly the live objects reached and leaves exactly the connections that touch none of them |
| `Cascade.CollapseOnce` | were/were_capability_integrator.cpp:32-46 | if no live object reached leads back to itself, each emits destroyed exactly once |
| `Cascade.CycleEmitsTwice` | were/were_capability_integrator.cpp:32-46 | two objects linked to each other: the cascade ends and one emits twice, because it stays integrated while it emits |
| `Cascade.SelfLinkStays` | were/were_capability_integrator.cpp:32-46 | collapsing an object that is linked to itself never comes back |
| `Cascade.NeverEnds` | were/were_capability_integrator.cpp:32-46 | nor does collapsing anything that leads to one |
| `Cascade.Ends` | were/were_connect.h:81-89 | everything else ends: each further step goes by an older connection or the one it came by is broken |
| `Cascade.EndsExactly` | were/were_capability_integrator.cpp:32-46 | a collapse ends exactly when no live object in its reach is linked to itself |
| `Emission.EmitRuns` | were/were_signal.h:73-80 | an emission that ends has run the handlers of exactly the connections listed at its beginning, in their order, and others only between them |
| `Emission.EmitGoes` | were/were_signal.h:73-80 | each free handler that ran has done the next entry of the plan, as long as there was one; objects only disintegrate |
| `Emission.EmitStays` | were/were_connect.h:28-34 | a connection that is gone never comes back |
| `Emission.OpDone` | were/were_connect.h:61-92 | a handler's connection is there, the one it breaks is gone, the object it collapses is dead and disconnected, the signal it emits has run its listeners |
| `Emission.EmitDeeper` | were/were_signal.h:73-80 | an emission that ends does the same on every larger stack |
| `Emission.QuietEmit` | were/were_signal.h:73-80 | a signal other than destroyed with notes alone ends on every stack and does nothing but run them |
| `Signals.BreakList` | were/were_connect.h:28-34 | a breaker turns all lists into those of the remaining connections, whether its connection is still there or not |
| `Signals.ListMatches` | were/were_connect.h:61-92 | the entries of a destroyed list do, in order, what the cascade takes them for |
| `Signals.World.Integrate` | were/were_capability_integrator.cpp:20-30 | runs the integrators, whatever they do, and then integrates, exactly if they end; refuses every state but the initial one |
| `Signals.World.Connect` | were/were_connect.h:61-92 | the three entries are added together, each at the end of its list |
| `Signals.World.RunBreaker` | were/were_connect.h:28-34 | the three entries disappear together |
| `Signals.World.CallEntry` | were/were_signal.h:76-79 | an entry runs its handler, or breaks its connection |
| `Signals.World.Behave` | were/were_signal.h:76-79 | a free handler does the next entry of the plan, operation by operation |
| `Signals.World.Perform` | were/were_connect.h:61-98 | each operation of a handler has exactly its effect |
| `Signals.World.Emit` | were/were_signal.h:73-80 | every signal does exactly what the meaning of its emission says, handlers that connect, break, collapse or emit included, and fails exactly if the stack does not suffice; it calls the connections listed when it began, in order; connections that touched an object when its destroyed began are gone at the end |
| `Signals.World.Collapse` | were/were_capability_integrator.cpp:32-46 | for arbitrary handlers exactly the meaning of a collapse: objects only disintegrate, gone connections stay gone, and what touched the object is gone at the end; with links and notes it is the cascade, whose theorems then apply |
| `HandlerQueue.StepKeepsInv` | were/were_handler.cpp:21-57 | every step keeps: a non-empty queue has a pending edge with a positive counter, a poster about to write, or a consumer about to look |
| `HandlerQueue.EveryRun` | were/were_handler.cpp:21-57 | over every interleaving the calls started are a prefix of the calls pushed, in order and once each |
| `HandlerQueue.QuietRunsEnd` | were/were_handler.cpp:32-46 | without further posts every run ends |
| `HandlerQueue.StuckMeansDone` | were/were_handler.cpp:21-57 | a state where nobody can move but by posting has started every call |
| `HandlerQueue.PostedCallsRun` | were/were_handler.cpp:21-57 | and where it ends every posted call has run |
| `Resource.ReleasedOnce` | sparkle_common/sparkle_resource.cpp:30-47 | under any order, repetition and nesting of collapse and resource destruction nothing crashes, the listener's reference is released at most once, together with the listener, and has been released when either is complete |
| `Resource.StepKeepsInv` | sparkle_common/sparkle_resource.cpp:30-84 | every step, nested or not, keeps: released exactly if no longer listening, and a handler that is still to run comes before any foreign code |
| `Resource.NeverTwice` | sparkle_common/sparkle_resource.cpp:39-46 | wherever the handler stands among the connections, the reference is never released twice: a second call crashes before the decrement |
| `Resource.UnlinkedTwice` | sparkle_common/sparkle_resource.cpp:39-46 | if a connection ahead of the handler collapses the object again, the outer emission calls the handler a second time, which unlinks the listener again and dereferences the NULL that the first removal left |
| `Resource.OnlyFirstIsSafe` | sparkle_common/sparkle_resource.cpp:75-84 | no run unlinks an unlinked listener exactly when nothing is connected ahead of the handler |
| `WlList.Appends` | foreign/wayland/src/wayland-util.c:44-50 | inserting a new element before the head appends it |
| `WlList.Removes` | foreign/wayland/src/wayland-util.c:53-59 | removing takes exactly the element out, also the only one, and leaves it without links, so that it cannot be removed again |
| `WlList.Prepends` | foreign/wayland/src/wayland-util.c:44-50 | inserting a new element behind the head puts it first |
| `WlList.Moves` | foreign/wayland/src/event-loop.c:486-487 | a source that is removed leaves its list for the front of the destroy list; both stay whole |
| `WlList.MovesAgain` | foreign/wayland/src/event-loop.c:486-487 | a source that is removed again before it is freed, as an idle task that removes itself, is in the destroy list once |
| `WlList.PassEndsExactly` | foreign/wayland/src/event-loop.c:572-580 | a pass during which a callback removes a source of the list goes on to the list's head exactly if that was not the source read already; otherwise it gets onto the destroy list and never comes to the head |
| `EventLoop.Loop.AddFd` | foreign/wayland/src/event-loop.c:103-131 | a new source that epoll watches; one with no descriptor or that epoll refuses is freed and changes nothing |
| `EventLoop.Loop.AddIdle` | foreign/wayland/src/event-loop.c:417-437 | a new task at the end of the idle list |
| `EventLoop.Loop.Check` | foreign/wayland/src/event-loop.c:456-459 | a source that is not marked yet joins the end of the check list |
| `EventLoop.Loop.Perform` | foreign/wayland/src/event-loop.c:158-490 | each call of a callback into the loop has exactly its effect on memory, lists and epoll set |
| `EventLoop.Loop.Invoke` | foreign/wayland/src/event-loop.c:571-580 | a dispatch makes exactly the calls of its callback, in order, and returns what it returns |
| `WlList.InsertedAgain` | foreign/wayland/src/event-loop.c:456-459 | marking a source again: the last of the list becomes its own successor, so that a pass never ends; any other hides the sources behind it |
| `EventLoop.Loop.RemoveSource` | foreign/wayland/src/event-loop.c:474-490 | a source that is not freed, removed before or not, leaves its list for the front of the destroy list and loses its descriptor; an idle task counts as run or as cancelled only once |
| `EventLoop.Loop.ProcessDestroyList` | foreign/wayland/src/event-loop.c:493-501 | frees exactly the removed sources, each while allocated, and each once |
| `EventLoop.Loop.DispatchIdle` | foreign/wayland/src/event-loop.c:593-603 | runs exactly the tasks that are not cancelled, each once, in the order they were added, whatever they remove, themselves included |
| `EventLoop.Loop.PostDispatchCheck` | foreign/wayland/src/event-loop.c:564-583 | dispatches the sources that were on the check list, in order, whatever their callbacks add, mark or remove, and skips none but removed ones; asks for another pass exactly if a call did not return 0 |
| `EventLoop.Loop.DispatchEvents` | foreign/wayland/src/event-loop.c:637-641 | dispatches the reported sources in order, each unless it was removed meanwhile, and no other |
| `EventLoop.Loop.Recheck` | foreign/wayland/src/event-loop.c:648-648 | passes follow until in one every call returns 0, and in no earlier one; each covers its whole check list except removed sources |
| `EventLoop.Loop.Dispatch` | foreign/wayland/src/event-loop.c:626-651 | keeps the lists, memory and epoll set consistent; waiting tasks are run or cancelled, earlier removed sources freed, reported and marked sources dispatched unless removed; before the first recheck pass all tasks added so far are done and all events dispatched, and the last pass is quiet |
| `Audio.Append` | were/were1_ring_buffer.c:15-30 | writing into free space appends and overwrites nothing that is still held, even across 64-bit wrap |
| `Audio.FreeSpaceExactly` | pcm_sparkle/pcm_sparkle.c:133-139 | a write spares the bytes still held exactly when it fits the free space |
| `Audio.Block` | were/were1_ring_buffer.c:32-42 | a block that read_start offers is the next bytes written |
| `Audio.Path.Write` | pcm_sparkle/pcm_sparkle.c:107-142 | writes in whole frames exactly what fits a period and the straight part of the ring, reports exactly that and leaves the block in flight alone if it fits the free space; if not, it replaces the oldest byte still held |
| `Audio.Path.Pointer` | pcm_sparkle/pcm_sparkle.c:166-197 | the position reported is a whole number of frames |
| `Audio.Path.Check` | sparkle_android/sparkle_player.cpp:168-188 | hands over the next block only when none is in flight; the bytes handed over since the queue was cleared are consecutive bytes written |
| `Audio.Path.Start` | sparkle_android/sparkle_player.cpp:87-104 | starts playing, keeps what was handed over and hands over the next block |
| `Audio.Path.Stop` | sparkle_android/sparkle_player.cpp:106-127 | clears the device and resets the ring, if one is attached |
| `Audio.Path.Callback` | sparkle_android/sparkle_player.cpp:145-166 | gives back exactly the block in flight, if any, and hands over exactly the next; dereferences NULL exactly when playing without a buffer |
| `Audio.Path.SetBuffer` | sparkle_android/sparkle_player.h:49-49 | attaches or detaches the ring at any time, and what was handed over stays in order |
| `Damage.Expand` | were/math/were_rect.h:25-45 | covers every pixel of both rectangles |
| `Damage.ExpandLeast` | were/math/were_rect.h:25-45 | the empty rectangle becomes the damage, any other the least one around both |
| `Damage.Limit` | were/math/were_rect.h:55-65 | keeps exactly the pixels inside the surface |
| `Damage.Uploader0` | were/were_upload.cpp:13-30 | copies exactly the rectangle |
| `Damage.StraightStays` | were/were_x11_surface.cpp:168-173 | for all 32-bit coordinates a limited rectangle that is not astray stays inside every buffer that holds the surface |
| `Damage.CopyStaysExactly` | were/were_x11_surface.cpp:168-173 | for all 32-bit damage and every surface below 2 GiB the copy after limit stays inside the window exactly when its last row does; with a negative end of rows it never does |
| `Damage.CopyStaysInside` | were/were_x11_surface.cpp:168-173 | for 16-bit coordinates of any sign and order that is exactly when the limited rectangle is not astray |
| `Damage.HarmlessDamage` | were/were_x11_surface.cpp:168-173 | damage that is empty, meets the surface or lies below it is not astray |
| `Damage.DamageOutside` | were/were_x11_surface.cpp:168-173 | damage left of the surface, or of negative width, leads the copy outside |
| `Damage.DamageWrapsBack` | were/were_upload.cpp:18-19 | beyond 16 bits an astray copy can wrap around into the window and copy columns that were not damaged |
| `Damage.ReportedExactly` | were/were_x11_surface.cpp:39-39 | the rectangle stored is the one reported exactly when its corner fits 32 bits |
| `Damage.ReportOverflows` | were/were_x11_surface.cpp:39-39 | damage with the largest width that does not start at 0 is lost and leads the copy astray |
| `Damage.X11Surface.Damage` | were/were_x11_surface.cpp:37-40 | reported pixels, as the 32-bit rectangle has them, are known to be out of date |
| `Damage.X11Surface.Draw` | were/were_x11_surface.cpp:37-45 | what a client changes is exactly what it still has to report, everything after a change of size |
| `Damage.X11Surface.Update` | were/were_x11_surface.cpp:155-178 | unless the damage leads astray, after an update the window shows the surface, except for changes not reported, and pixels outside the damage are as they were |
| `Damage.X11Surface.Commit` | were/were_x11_surface.cpp:42-45 | if every change was reported and the damage does not lead astray, the window equals the surface after the commit |
| `Damage.X11Surface.Expose` | were/were_x11_surface.cpp:55-63 | a full update makes the window equal the surface whatever was reported |
| `Pixels.OpaqueHalves` | were/were_upload.cpp:47-57 | or-ing a word sets alpha in both its pixels |
| `Pixels.SwapHalves` | were/were_upload.cpp:100-114 | the masked shifts of a word swap red and blue in both its pixels, no bit crossing between them |
| `Pixels.OpaqueBytes` | were/were_upload.cpp:36-45 | the three colour bytes stay and alpha is full |
| `Pixels.SwapBytes` | were/were_upload.cpp:66-80 | the first and third byte are exchanged and the second stays |
| `Upload.Uploader` | were/were_upload.cpp:47-114 | for any 32-bit arguments whose rows, wrapped as the code wraps them, lie in the buffers; with rows of whole words below 4 GiB it converts exactly the words that the rectangle touches |
| `Upload.InsideFits` | were/were_upload.cpp:51-57 | a rectangle inside a surface has all its words, also the one more, inside every buffer that holds the surface in rows of whole words |
| `Upload.UploadsPixels` | were/were_upload.cpp:35-98 | every covered pixel is the converted source pixel of the per-pixel loop, every other pixel is unchanged |
| `Upload.CoveredColumns` | were/were_upload.cpp:54-56 | covered are the rectangle's columns and at most one more on each side |
| `Cursor.Create` | foreign/wayland/cursor/wayland-cursor.c:287-335 | keeps the images up to the first that cannot be stored, with their total delay modulo 2^32 |
| `Cursor.FrameAndDuration` | foreign/wayland/cursor/wayland-cursor.c:476-515 | terminates with an index in range for every total that is not 0, even a wrapped one; the frame's interval contains the phase and the duration is the time left |
| `Cursor.OneFrame` | foreign/wayland/cursor/wayland-cursor.c:500-501 | with positive delays exactly one frame's interval contains the phase |
| `Cursor.PhaseExactly` | foreign/wayland/cursor/wayland-cursor.c:490-490 | the phase is the time modulo the true total exactly if the total did not wrap or the time is below the wrapped total |
| `Cursor.WrappedTotal` | foreign/wayland/cursor/wayland-cursor.c:490-490 | a cursor whose total wrapped to 1: the phase of 5 ms is 0, and the time left is 5 ms too long |
| `Cursor.WrappedTotalHidesFrame` | foreign/wayland/cursor/wayland-cursor.c:490-501 | its second frame is never shown |

## Left out

- dlmalloc: the corruption checks on links, which never fail in a valid heap; the bins' own addresses lie below the segment.
- dlmalloc: a head word is a record of size and two flags; its packing into one word, mmapped chunks, mspaces, footers, locks, realloc and memalign are not modelled.
- Dlmalloc.Heap.SysAlloc: models space that the system appends behind top; prepending, new segments and trimming (sys_trim, release_unused_segments) are not modelled.
- Dlmalloc.Heap.Malloc: behind sys_alloc covers growth of top only, as SysAlloc does.
- Dlmalloc.Heap.Free: the sys_trim after a block joins a large top.
- Dlmalloc.Heap.FreeBeforeTop: the sys_trim after a block joins a large top.
- dlmalloc: the assembler and built-in variants of the two bit computations; the portable ones are modelled.
- Wayland connection: reading descriptors from control messages, EINTR, SIGPIPE and the closing of descriptors; a descriptor stands for its open file, so dup is the identity, and the descriptor rings are lists.
- Connection.Connection.SendClosure: after a failure the descriptors already queued belong to no message; callers close the connection, and sending on is not modelled.
- Receiver.Peer.Read: the limit of the descriptor ring at the receiver.
- Closure.BufferSize: arguments of 2^32 bytes and more, where the source's 32-bit sizes wrap around; words are in little-endian order.
- WlMap.Map.InsertNew: allocation failures; the map after an insertion without room.
- WlMap.Map.InsertAt: an own array of 2^31 slots that would grow; the entries after the slot of a free id was set.
- WlMap.Map.Remove: own-side ids beyond the array, which the source does not test; the entries after an id that was not live was removed.
- wl_array and wl_map_for_each, and wl_list beyond inserting and removing one element.
- Scanner: the XML parser, the sorted forward declarations, headers and documentation; a since above the range of int.
- Signals: only sequential use; queued calls between threads are HandlerQueue's; objects made during an emission and reference counts.
- Resource: how the reference count reaches 0; the other entries of the list are arbitrary foreign code.
- HandlerQueue: the mutex and the eventfd are atomic steps; exceptions after short reads or writes.
- EventLoop: timer and signal sources beyond their descriptors; nested dispatch; callbacks that use a freed source, mark a removed one or an idle task, or remove the source that a recheck pass has read already (`WlList.PassEndsExactly`).
- EventLoop.Loop.Check: a source that is marked already, whose second marking corrupts the list (`WlList.InsertedAgain`).
- Audio: the sound library and the socket protocol; concurrent access within one operation.
- Audio.Path.Callback: assumes that the device reports only the block in flight, so cleared buffers raise no callback.
- Audio.Path.SetBuffer: a second ring in place of the first.
- Audio.Path.Write: what follows after a write beyond the free space has replaced bytes that are held (`Audio.FreeSpaceExactly`).
- Damage.X11Surface.Damage: takes an overflowing sum as two's complement, where C++ leaves it open.
- Damage.CopyStaysInside: speaks of 16-bit coordinates; beyond them the 32-bit offsets can wrap back into the window (`Damage.DamageWrapsBack`), and the exact condition is that of `Damage.CopyStaysExactly`.
- Cursor: pixel copies, themes and loading; FrameAndDuration's division by a total of 0, which the source does not exclude either.
- libffi's closures, call interfaces and structure layout; JNI, OpenSL ES, xcb, keymaps, settings and the generated protocol classes: thin or platform code.
