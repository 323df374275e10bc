# AROS: verified models of exec's trees, allocators and pools, PnP resources, deferred actions and some loops

AROS is an operating system written in C.  This project models the parts of its ROM whose correctness is
least obvious and proves, in Dafny, what they are for.  `dafny verify dfyconfig.toml` checks everything.

* **Balanced trees** (`avl*.dfy`, `ROM/exec/avl.c`).  Nodes are objects with two child links, a parent
  pointer and a balance field.  A ghost tree says what shape they make up; a context (the tree around a
  hole) says where a climb is.  Adding and removing relink nodes in place and repair the balance on the way
  up; the sequence of nodes changes by exactly one node, and the loops take at most 1.44 log2(n) rounds.
* **Free lists** (`free_list.dfy`, `memory_index.dfy`, `chunk_links.dfy`, `memory.dfy`, `first_fit.dfy`,
  `tiling.dfy`, `memory_list.dfy`; `ROM/exec/memory.c`, `ROM/exec/memory_nommu.c`).  A memory header with its
  chunk links and its size index.  The list is a function of the free granules alone, free and live granules
  tile the arena, the index after each call is an exact function of the one before, and it never makes an
  allocation fail that a plain search would serve.
* **Pools** (`puddles.dfy`, `pools.dfy`, `pool_lifetime.dfy`, `pool_runs.dfy`; the pool part of `memory.c`,
  `createpool.c`, `deletepool.c` and the four entry points).  From `CreatePool` to `DeletePool`, through any
  requests, the system's free lists end as they began; so they do with any number of pools and plain
  allocations in between each other.
* **ISA PnP resource iterators** (`pnp_iterators.dfy`).  A backtracking search over IRQs, DMA channels and
  IO ranges, locked in a shared context; who is marked as in conflict decides where it goes on, and is exact, too.
* **Deferred actions of intuition** (`intui_actions.dfy`).  A state machine of client tasks and the input
  task, with sticky signals, the IO request that consumes the same signal, and Forbid/Permit.
* **Loops with arithmetic or sets**: `rendering.dfy` (cliprects), `crc32.dfy`, `boot_block.dfy` and
  `scroller.dfy`.  `arithmetic.dfy` and `wrappers.dfy` hold what several of them need.

## What the proofs found

* The documented loops with safe deletion (`ROM/exec/avl.c:796-807`, `943-954`) ask for the neighbour of a
  null node in their last round, and on an empty tree before the first.  `AvlLoops.DeleteWhileVisiting` counts
  these requests in place of making them: there is exactly one on every tree.  Apart from it the loop visits
  and deletes what the documentation means.
* `mhac_CalcIndex` takes a LONG.  For a size of 2^31 or more the shift never reaches zero
  (`MemoryIndex.CalcIndexEnds`), so allocations through an index are modelled for sizes that are not negative
  as a LONG, or that fail the check against `mh_Free` before.
* `AROS_ROUNDUP2` wraps to 0 for the last 15 sizes (`FreeList.RoundUpCovers`).  The check against `mh_Free`
  in the caller keeps such requests away.
* The comment at `ROM/exec/memory.c:137-150` promises that an index entry leads to the first chunk of its
  size.  The code keeps less: an entry is NULL, or the header slot or a listed chunk with a successor
  (`Indexed`).  That is enough for success, because a failing indexed search is repeated without the index.
  With k0 the block at which the indexed search starts, an allocation from the front is a first fit if and
  only if no block in front of k0 is large enough, or none from k0 on is and the repetition serves it
  (`Memory.MemHeader.StdAlloc`, `ChunkLinks.WhenFirstFit`).  `FirstFit.MissedFirstFit` is a run that misses:
  freed bytes that join the chunk in front of them are not indexed (`ROM/exec/memory.c:725-757`), so 32 bytes
  come from the rest of the header although the first chunk has 64.
* `AllocAbs` returns the rounded location and reserves whole granules around the stretch.  Freeing that
  pointer with the size that was asked for restores the free lists if and only if the size rounds up to as
  much (`MemoryList.MemList.ReserveThenFree`); 16 bytes at 4104 leave a granule live for good, as every stretch
  does that crosses one granule boundary more than its size demands (`MemoryList.CrossesBoundary`).
* A fresh puddle has room for the request that caused it if and only if the size computation does not wrap
  (`Pools.FreshPuddleFits`).
* The comment at `ROM/exec/memory.c:1029-1030` exempts the first puddle from being moved forward after it has
  served.  The test of `ln_Pred` is true of every listed node, so the first one moves like the others
  (`Pools.Pool.Resort`).
* `DoSyncAction` returns without running the handler when `CreateMsgPort` fails.  Over any run exactly these
  calls end as skipped, and they queue nothing (`IntuiActions.CallsAccounted`).
* `m_InConflict` is set by any iterator that tries a taken choice, also by one of the same list in the same call
  of `IncResourceIteratorList`, and is never reset: exactly the marked entries, and those that an earlier turn
  meets, are asked for further choices (`PnpIterators.ResourceContext.IncResourceIteratorList`).
* The index of `BootBlockCheckSum` is a UWORD, so the loop ends if and only if the block has at most 65532
  bytes (`BootBlock.LoopEnds`).
* The body of a scroller is wrong exactly when the overlap exceeds the visible lines or the product with
  MAXBODY leaves a ULONG (`Scroller.FindScrollerValues`); its only caller passes no overlap.
* A top line converted to a pot and back is the same if and only if a remainder is at most 32767
  (`Scroller.RoundTrip`); with 65534 hidden lines line 40000 becomes 39999 (`Scroller.OneLower`), and then an
  interim update announces a change that nobody made (`Scroller.SetThenUpdate`).
* A clip rectangle with relative edges in a layer too small for it is inside out.  It overlaps by the test of
  `_AndRectRect`, nothing is to be drawn, and the pixel count that is returned is wrong exactly when such a
  rectangle overlaps a drawable piece and neither its width nor its height is 0
  (`Rendering.CountExact`, `Rendering.InvertedClip`).

## Assumptions

* 32-bit target: IPTR and ULONG have 32 bits and a pointer 4 bytes.  MEMCHUNK_TOTAL is 16.  The sizes of the
  other structures are arbitrary up to 512 bytes, MEMHEADER_TOTAL in whole multiples of 16: the header files
  that fix them are not part of this model.  The page size is a multiple of MEMCHUNK_TOTAL.
* Each system header has its index context from the start; mungwall is off; no header is managed memory.
* IO resources have a positive length and alignment, and MaxBase plus the alignment fits into 16 bits.
* Compare functions of trees are orders: consistent, antisymmetric and transitive.
* Cliprects of a layer are pairwise disjoint and not inside out.  Every obscured one that the layer keeps in a
  bitmap has one of its own; in simple and superbitmap layers nothing is said about them.

## How to read it

Methods stand for the C functions.  Where a C function is long its branches and loop rounds are methods of
their own, and mirrored LEFT and RIGHT cases are one method with a direction.  Ghost fields (`tree`, `blocks`,
`live`, `used`, `locked`) hold the abstract value; `Valid` ties them to the real fields.  `hide` at the top
of a body keeps definitions away from proofs that do not need them.

## Model

| member | source | states |
|---|---|---|
| Avl.AvlTree.AddNode | ROM/exec/avl.c:218-359 | Returns a node with an equal key and leaves the tree unchanged exactly when there is one, the node itself if it is in the tree already; else the sequence of nodes is the old one with the new node at its sorted place, and links, balances and order hold; search and climb take 1.44 log2(n + 1) rounds at most |
| Avl.AvlTree.FindPlace | ROM/exec/avl.c:218-257 | The search ends at an equal node or at the empty place with everything below the key before it and everything above behind, in 1.44 log2(n + 1) rounds at most |
| Avl.AvlTree.ClimbAfterAdd | ROM/exec/avl.c:258-357 | The climb restores a balanced, linked tree around a subtree that grew, without changing the sequence, in at most as many rounds as the place is deep |
| Avl.AvlTree.LinkParent | ROM/exec/avl.c:27-49 | The new subroot hangs where the old one hung; the side is reported, -1 at the root |
| AvlClimb.RotateSingle | ROM/exec/avl.c:51-68 | Exactly the links and parents of a single rotation |
| AvlClimb.RotateDouble | ROM/exec/avl.c:70-91 | Exactly the links and parents of a double rotation, nothing else in the surroundings touched |
| AvlFix.FixAfterAdd | ROM/exec/avl.c:271-345 | The overweight subtree becomes balanced with its former height, same nodes in the same order |
| AvlFix.FixAfterRemove | ROM/exec/avl.c:540-620 | The overweight subtree becomes balanced; it keeps its height exactly when the climb stops there |
| AvlSwap.RelinkDistant | ROM/exec/avl.c:489-503 | A predecessor further down is cut out and takes over both subtrees of the removed node |
| AvlSwap.RelinkImmediate | ROM/exec/avl.c:478-487 | A predecessor that is the left child takes over the right subtree |
| AvlSwap.CutPredecessor | ROM/exec/avl.c:470-503 | Both cases lead to the same linked shape with the climb's starting point |
| Avl.AvlTree.Transplant | ROM/exec/avl.c:504-510 | The predecessor takes balance, parent and parent's link of the removed node |
| Avl.AvlTree.RemoveInner | ROM/exec/avl.c:468-514 | A node with two children leaves: the sequence is the old one without it, and one subtree is a level lower |
| Avl.AvlTree.ClimbAfterRemove | ROM/exec/avl.c:517-642 | The climb restores a balanced, linked tree in at most as many rounds as the starting point is deep |
| Avl.AvlTree.RemNodeByAddress | ROM/exec/avl.c:400-645 | For any node of the tree the sequence afterwards is the old one with just that node deleted, everything balanced and linked, in 1.44 log2(n + 1) rounds at most |
| Avl.AvlTree.RemNodeByKey | ROM/exec/avl.c:687-700 | Removes and returns a node with the key, or none exactly when there is none |
| Avl.AvlTree.SearchByKey | ROM/exec/avl.c:889-903 | The common loop of the three key searches: the place of the key, and both neighbours when it is missing |
| Avl.AvlTree.FindNode | ROM/exec/avl.c:742-759 | A node with the key, null exactly when there is none, in 1.44 log2(n + 1) rounds at most |
| Avl.AvlTree.FindPrevNodeByKey | ROM/exec/avl.c:886-905 | The last node not above the key, null when all are above, in 1.44 log2(n + 1) rounds at most |
| Avl.AvlTree.FindNextNodeByKey | ROM/exec/avl.c:1033-1052 | The first node not below the key, null when all are below, in 1.44 log2(n + 1) rounds at most |
| Avl.AvlTree.FindFirstNode | ROM/exec/avl.c:1091-1103 | The first node of the sequence, in 1.44 log2(n + 1) rounds at most |
| Avl.AvlTree.FindLastNode | ROM/exec/avl.c:1141-1152 | The last node of the sequence, in 1.44 log2(n + 1) rounds at most |
| Avl.AvlTree.FindNextNodeByAddress | ROM/exec/avl.c:963-992 | The node behind the given one in the sequence, null behind the last, in 1.44 log2(n + 1) rounds at most |
| Avl.AvlTree.FindPrevNodeByAddress | ROM/exec/avl.c:816-845 | The node in front of the given one, null in front of the first, in 1.44 log2(n + 1) rounds at most |
| AvlShape.PlugInorder | ROM/exec/avl.c:51-91 | Exchanging a subtree for one with the same sequence keeps the whole sequence |
| AvlShape.PlugLinked | ROM/exec/avl.c:27-49 | A linked subtree in a linked context is a linked tree: parents and children agree everywhere |
| AvlShape.PlugBalanced | ROM/exec/avl.c:258-357 | A balanced subtree of the awaited height in a balanced context is a balanced tree |
| AvlShape.FibonacciBound | ROM/exec/avl.c:385-387 | A balanced tree of height h has at least Fib(h + 2) - 1 nodes |
| AvlShape.HeightIsLogarithmic | ROM/exec/avl.c:785-786 | 1.618^height <= nodes + 1, the documented 1.44 log(n) |
| AvlLoops.ThereAndBack | ROM/exec/avl.c:816-992 | Next and previous are inverse to each other, and null only at the ends |
| AvlLoops.VisitForward | ROM/exec/avl.c:944-954 | The traversal visits the whole sequence once, in order |
| AvlLoops.VisitBackward | ROM/exec/avl.c:789-794 | The inverse traversal visits it once, backwards |
| AvlLoops.DeleteWhileVisiting | ROM/exec/avl.c:943-954 | With any nodes deleted on the way every original node is visited once, and the others remain in order; a null node's neighbour is asked for exactly once |
| FreeList.RoundUpCovers | ROM/exec/memory.c:502-503 | Rounding up covers the request if and only if the addition does not wrap |
| FreeList.Canonical | ROM/exec/memory.c:482-759 | Two well-formed free lists with the same free granules are identical |
| FreeList.TakeKeeps | ROM/exec/memory.c:551-591 | Taking bytes out of a chunk keeps the list well formed and removes exactly those granules and that many bytes |
| FreeList.GiveKeeps | ROM/exec/memory.c:655-757 | Giving bytes back, joined on either side, keeps the list well formed and adds exactly those granules |
| FreeList.TakeThenGive | ROM/exec/memory.c:482-759 | Taking a block anywhere and giving it back restores the identical list |
| MemoryIndex.CalcIndexEnds | ROM/exec/memory.c:266-276 | The loop ends if and only if the size is not negative as a LONG |
| MemoryIndex.CalcIndex | ROM/exec/memory.c:266-276 | The size class, cut off at the last one |
| MemoryIndex.IsIndexEmpty | ROM/exec/memory.c:172-183 | True exactly when every entry is NULL |
| MemoryIndex.ClearIndex | ROM/exec/memory.c:185-194 | Every entry is NULL afterwards |
| MemoryIndex.AllocatorCtx.constructor | ROM/exec/memory.c:196-215 | An empty index with as many levels as the span has size classes, up to the least of the wanted number and 10 |
| ChunkLinks.Relinked | ROM/exec/memory.c:619-759 | What a list becomes when a stretch of chunks is replaced by others and one link is rewritten |
| ChunkLinks.ClassBounds | ROM/exec/memory.c:318-321 | The computed class lies inside the index, even for an index without classes |
| ChunkLinks.WhenFirstFit | ROM/exec/memory.c:137-150 | What the indexed search chooses is the first fit if and only if nothing fits in front of its start, or nothing from there on |
| Memory.MemHeader.HeaderIsSane | ROM/exec/memory.c:402-431 | validateHeader rejects no reachable header |
| Memory.MemHeader.ChunkIsSane | ROM/exec/memory.c:443-470 | validateChunk rejects no chunk of a reachable header |
| Memory.MemHeader.Claimed | ROM/exec/memory.c:249-264 | Exactly the entries that are the chunk or lead to it become NULL |
| Memory.MemHeader.Created | ROM/exec/memory.c:278-300 | Exactly the entries of the chunk's classes that were empty or led further become its predecessor |
| Memory.MemHeader.GetBetterPrev | ROM/exec/memory.c:309-337 | The entry of the highest class up to the request's that has one, else the given pointer |
| Memory.MemHeader.GetCloserPrev | ROM/exec/memory.c:339-359 | Of the given pointer and all entries below the address the one leading furthest |
| Memory.MemHeader.Search | ROM/exec/memory.c:523-549 | The first chunk behind the start that is large enough, or the last one in reverse; none exactly when all are too small |
| Memory.MemHeader.Serve | ROM/exec/memory.c:551-596 | The list loses exactly the served bytes, at the front of the chunk or at its end; the index stays sound |
| Memory.MemHeader.StdAlloc | ROM/exec/memory.c:482-612 | With any index it succeeds if and only if some chunk of the list is large enough; the chunk it takes is the first (or in reverse the last) fit from where the index leads, or of the whole list when there is none; when that is the first fit of the list, exactly; what it takes was free, aligned and is free no longer; the whole index afterwards |
| Memory.MemHeader.FindGap | ROM/exec/memory.c:669-705 | The place of the freed block among the chunks, and whether it overlaps the next one |
| Memory.MemHeader.StdDealloc | ROM/exec/memory.c:619-759 | An alert exactly when a granule of the block is free already; else exactly its granules become free, coalesced; the whole index afterwards |
| Memory.MemHeader.AllocAbs | ROM/exec/memory_nommu.c:96-191 | Succeeds if and only if all granules of the location are free, and takes exactly those, for unaligned locations too |
| FirstFit.MissedFirstFit | ROM/exec/memory.c:725-757 | A concrete run after which an allocation passes over a chunk that is large enough |
| Tiling.TakeTiled | ROM/exec/memory_nommu.c:22-61 | Taking a free block keeps free granules and live blocks an exact tiling |
| Tiling.GiveTiled | ROM/exec/memory_nommu.c:198-251 | So does giving back a live one |
| Tiling.PartTiled | ROM/exec/memory_nommu.c:198-251 | So does giving back any stretch of live granules: what remains of the blocks it cuts stays live |
| Tiling.AllGivenBack | ROM/exec/memory_nommu.c:198-251 | With nothing live the whole arena is free |
| Tiling.WholeList | ROM/exec/memory.c:619-759 | An arena that is free altogether is one chunk |
| Tiling.AnyOrder | ROM/exec/memory.c:619-759 | Freeing a set of blocks in any two orders gives the identical list |
| MemoryList.MemList.AllocMem | ROM/exec/memory_nommu.c:22-61 | Succeeds if and only if an eligible header has a large enough chunk; the first such header serves, from the end asked for of the chunk that its index leads to; the eligible ones in front of it turn the request down, all others stay as they are; the block is live from then on |
| MemoryList.MemList.AllocAbs | ROM/exec/memory_nommu.c:63-196 | Succeeds if and only if the rounded stretch is free in one header |
| MemoryList.MemList.FreeMem | ROM/exec/memory_nommu.c:198-251 | For any stretch: nothing for no bytes, an alert exactly when no header holds it or a granule of it is free already, else exactly its granules are live no longer, whichever blocks they were part of |
| MemoryList.MemList.ReserveThenFree | ROM/exec/memory_nommu.c:63-251 | Freeing what AllocAbs returned with the size asked for restores the lists if and only if the reservation is no longer than the rounded size; else its last granule stays live |
| MemoryList.CrossesBoundary | ROM/exec/memory_nommu.c:96-105 | When the reservation is a granule longer, exactly |
| MemoryList.MemList.FindMem | ROM/exec/memory.c:23-65 | The header whose bounds hold the address, none exactly when there is none |
| MemoryList.MemList.ListFromLive | ROM/exec/memory_nommu.c:22-251 | In every reachable state a header's free granules are its arena minus the live blocks |
| MemoryList.MemList.SameLiveSameLists | ROM/exec/memory_nommu.c:22-251 | Over any run: whenever the same blocks are live again, all free lists and free counts are identical again |
| Puddles.Puddle.Serve | ROM/exec/memory.c:1021-1023 | A block that was not handed out before, exactly when a chunk of the puddle is large enough; it is the asked end of the chunk that the puddle's index leads to, and list and index are as stdAlloc leaves them |
| Puddles.Puddle.TakeBack | ROM/exec/memory.c:1128-1130 | The block is no longer handed out; the deallocation never alerts |
| Puddles.Puddle.EmptyIffUnused | ROM/exec/memory.c:1132-1133 | The size test holds exactly when nothing but the index context is left in the puddle |
| Puddles.AllocMemHeader | ROM/exec/memory.c:787-862 | A header inside a new live block of the system, one free chunk behind it, attributes and priority of the header it lies in, which serves it as stdAlloc does; none exactly when the system has no room |
| Puddles.SetUpPuddle | ROM/exec/memory.c:364-372 | The index context is taken out of the puddle's free chunk |
| Puddles.FreePuddle | ROM/exec/memory.c:865-879 | The whole puddle goes back to the system |
| Pools.FreshPuddleFits | ROM/exec/memory.c:977-986 | A fresh puddle has room for its request if and only if the size computation does not wrap |
| Pools.FreshPuddleFitsRounded | ROM/exec/memory.c:977-986 | It has room for the rounded request, too |
| Pools.RoundPageLeast | ROM/exec/createpool.c:84-107 | Short of a wrap-around the size is rounded up to the least multiple of the page that holds it |
| Pools.NewPuddleSizeIs | ROM/exec/memory.c:977-986 | A new puddle has the pool's usual size if the request fits in beside header and index context, else the least whole number of pages that holds the three |
| Pools.Enqueue | ROM/exec/memory.c:996-997 | Behind all puddles of the same or higher priority, in front of all others |
| Pools.EnqueueMemHeader | ROM/exec/memory.c:891-911 | In front of all puddles of the same or lower priority, behind all others |
| Pools.Pool.constructor | ROM/exec/createpool.c:127-163 | A pool with its first puddle, nothing handed out, everything accounted for |
| Pools.Pool.NoEmptyPuddle | ROM/exec/memory.c:1077-1149 | Between requests every puddle but the first holds a live block, and the first is listed |
| Pools.Pool.TryAllListed | ROM/exec/memory.c:1001-1048 | A listed puddle serves the request exactly when one of them has room: the first that does, from the end asked for of the chunk its index leads to; the word in front of the block names it, and then it is moved forward if it has memory left |
| Pools.Pool.TryNew | ROM/exec/memory.c:958-1000 | One new puddle, exactly when the system has room for it: of the least sufficient size, listed behind those of its priority; the block is an end of what is free behind its index context, and then the puddle is moved forward if it has memory left |
| Pools.Pool.InternalAllocPooled | ROM/exec/memory.c:920-1067 | The first listed puddle that has room serves, as stdAlloc does; only when none has, one new puddle is created and serves; fails exactly when the system has no room either; the block was not handed out before; the serving puddle moves in front of those of its priority if more than 32 bytes are left, else the list keeps its order |
| Pools.Pool.Resort | ROM/exec/memory.c:1027-1043 | With more than 32 bytes left the puddle moves in front of all of its priority and behind all of higher priority, the others keep their order; otherwise nothing moves |
| Pools.Pool.FreeIn | ROM/exec/memory.c:1125-1141 | The puddle is given back exactly when this was its last block and it is not the first; the others keep their order |
| Pools.Pool.InternalFreePooled | ROM/exec/memory.c:1077-1149 | Frees exactly the block, in the puddle the stored pointer leads to |
| Pools.Pool.Release | ROM/exec/memory.c:1135-1140 | Exactly the empty puddle leaves the list and the system's live blocks |
| Pools.Pool.AllocPooled | ROM/exec/allocpooled.c:70-98 | As InternalAllocPooled; NULL for no bytes |
| Pools.Pool.FreePooled | ROM/exec/freepooled.c:56-76 | As InternalFreePooled; nothing for NULL or no bytes |
| Pools.Pool.AllocVecPooled | ROM/exec/allocvecpooled.c:52-86 | As AllocPooled for one word more; the word in front of the block holds the size of the whole block |
| Pools.Pool.FreeVecPooled | ROM/exec/freevecpooled.c:52-75 | Frees exactly the block that AllocVecPooled made, with the size found in front of it |
| Pools.Pool.DeletePool | ROM/exec/deletepool.c:53-115 | Every puddle goes once, the first one last; the system's live blocks are those from before the pool was created |
| PoolLifetime.FirstPuddleHoldsPool | ROM/exec/createpool.c:84-107 | The rounded puddle size holds header, context, pool structure and a block of the wanted size |
| PoolLifetime.CreatePool | ROM/exec/createpool.c:80-168 | A valid pool with the requirements asked for, whose header lies right behind the first puddle's struct MemHeader and in front of the index context, large enough for a semaphore if one is wanted; its puddle size is the least multiple of the page, and of 4096 at least, that holds the wanted size with its overhead; none exactly when the system has no room |
| PoolLifetime.Serve | ROM/exec/allocpooled.c:70-98 | Any request, of either kind of call, keeps the pool valid; one more handle exactly when a puddle or the system has room, one less for a block given back; the handles are exactly the pool's live blocks |
| PoolLifetime.Lifetime | ROM/exec/deletepool.c:53-115 | From CreatePool through any run of both kinds of requests to DeletePool, with anything still allocated, all free lists of the system end exactly as they began |
| PoolRuns.Clients.Create | ROM/exec/createpool.c:80-168 | Beside other pools: one pool more exactly when the system has room; live blocks stay split among pools, plain allocations and what was there before |
| PoolRuns.Clients.Delete | ROM/exec/deletepool.c:53-115 | Beside other pools: exactly this pool's blocks leave the system, and no other pool is touched |
| PoolRuns.Clients.Ask | ROM/exec/memory.c:920-1149 | A request to one pool while others and plain allocations share the system: answered as by itself, no other pool touched |
| PoolRuns.Run | ROM/exec/memory.c:920-1149 | Any number of pools created, used and deleted in any order, with AllocMem, AllocAbs and FreeMem in between: once all is given back every free list is identical |
| PnpIterators.ResourceContext.FindIoPlace | ROM/isapnp/pnp_iterators.c:180-216 | The walk that breaks early finds an overlapping range if there is any, else the sorted place |
| PnpIterators.ResourceContext.LockResource | ROM/isapnp/pnp_iterators.c:135-266 | Refused if and only if a locked iterator has the choice or overlaps; then exactly one such iterator, of several IO ranges the lowest, is marked as in conflict, and else none |
| PnpIterators.ResourceContext.UnlockResource | ROM/isapnp/pnp_iterators.c:273-336 | Exactly this lock is gone |
| PnpIterators.ResourceContext.NothingShared | ROM/isapnp/pnp_iterators.c:135-336 | No two locked iterators share an IRQ, DMA channel or IO port |
| PnpIterators.ResourceContext.ResetResourceIterator | ROM/isapnp/pnp_iterators.c:343-433 | Locks the least free choice; fails exactly when all are taken; in conflict are afterwards exactly those that were before, and those that a choice in front of it met |
| PnpIterators.ResourceContext.IncResourceIterator | ROM/isapnp/pnp_iterators.c:588-661 | Locks the next free choice; fails, without a lock, exactly when there is none; in conflict are afterwards exactly those that were before, and those that a choice in between met |
| PnpIterators.ResourceContext.IncStep | ROM/isapnp/pnp_iterators.c:681-700 | An iterator in conflict moves on to its next free choice; otherwise it falls back to its least free one, which never fails; in conflict are afterwards exactly those that were before, and those that a choice tried in vain met |
| PnpIterators.ResourceContext.IncResourceIteratorList | ROM/isapnp/pnp_iterators.c:668-708 | TRUE: one entry moves on to its next free choice, those in front of it fall back to their least free ones, all others stay; FALSE: all fall back, and no entry that was in conflict had a free choice above. An entry is in conflict when its turn comes exactly if it was at the start or an earlier turn of this call met it, and so for the marks at the end. TRUE moves the tuple up lexicographically, last entry first; all iterators stay locked either way |
| PnpIterators.ResourceContext.SuccessorUnique | ROM/isapnp/pnp_iterators.c:668-708 | The choices and the marks at the start determine who is in conflict when, the entry that moves on and the choices that follow |
| PnpIterators.RankGrows | ROM/isapnp/pnp_iterators.c:668-708 | The lexicographic order is that of a bounded number |
| PnpIterators.WalkThrough | ROM/isapnp/pnp_iterators.c:668-708 | Repeated calls reach FALSE after finitely many rounds |
| PnpIterators.ResourceContext.AllocResourceIterator | ROM/isapnp/pnp_iterators.c:440-460 | A new iterator locked at its least free choice and not in conflict; none and no lock when AllocVec fails or all choices are taken; marked are exactly those that a choice tried in vain met, also when it fails |
| PnpIterators.ResourceContext.AllocResourceIteratorList | ROM/isapnp/pnp_iterators.c:494-540 | A locked iterator for every resource in order, each at the least choice the ones before it have left, or exactly the locks, slots and IO list of before: when AllocVec fails on the way, or all choices of a resource are taken; marked are exactly those that a choice tried in vain met |
| PnpIterators.ResourceContext.FreeResourceIteratorList | ROM/isapnp/pnp_iterators.c:547-581 | Exactly the list's locks are gone; tells whether any was in conflict |
| PnpIterators.ResourceContext.SortedUnique | ROM/isapnp/pnp_iterators.c:180-244 | The sorted IO list is determined by its members |
| PnpIterators.ResourceContext.SameLocksSameContext | ROM/isapnp/pnp_iterators.c:494-581 | Same locks at the same choices make the identical slots and IO list, whatever happened in between |
| PnpIterators.ResourceContext.ComeAndGo | ROM/isapnp/pnp_iterators.c:494-708 | A list is allocated, taken through any number of combinations and freed, or fails to be allocated: IRQ slots, DMA slots and IO list equal the old ones |
| IntuiActions.StepKeeps | ROM/intuition/inputhandler_actions.c:584-717 | Every step of every task keeps the invariant of the hand-off |
| IntuiActions.HandledInOrderOnce | ROM/intuition/inputhandler_actions.c:691-716 | In any interleaving actions are handled in queue order, each at most once, and one that is queued and not handled is still on its way |
| IntuiActions.ReturnsAfterHandler | ROM/intuition/inputhandler_actions.c:626-637 | A synchronous caller comes back only after its handler has run exactly once |
| IntuiActions.EveryOutcome | ROM/intuition/inputhandler_actions.c:584-639 | Every call that ended had its handler run, or was skipped |
| IntuiActions.CallsAccounted | ROM/intuition/inputhandler_actions.c:584-639 | Over any run, for every task: as many handlers run as calls whose port was made, except one still under way; as many messages queued, except one about to be; as many skipped calls as calls without a port |
| IntuiActions.AsyncAccounted | ROM/intuition/inputhandler_actions.c:643-674 | Over any run exactly the asynchronous calls that got their memory have queued one copy each, and a copy lives until its handler has run |
| IntuiActions.RequestsReplied | ROM/intuition/inputhandler_actions.c:612-637 | Over any run, whenever a task is not in WaitIO, in particular once its call is over, every IO request it has sent from its stack was replied |
| IntuiActions.RequestIfUnfinished | ROM/intuition/inputhandler_actions.c:626-628 | A request is sent exactly when the action is not finished at the first test, else the caller leaves at once |
| IntuiActions.DragHolds | ROM/intuition/inputhandler_actions.c:686-690 | From the moment a system gadget is dragged until it is let go no handler runs, whatever is called, and then the queue is taken up again |
| IntuiActions.TouchedIsAlive | ROM/intuition/inputhandler_actions.c:701-714 | No task touches a message whose owner has returned or that was freed |
| IntuiActions.NoLostWakeup | ROM/intuition/inputhandler_actions.c:626-633 | No caller sleeps with done set and no signal pending, except inside the input task's Forbid |
| IntuiActions.ForbidIsNeeded | ROM/intuition/inputhandler_actions.c:703-709 | Without Forbid there is a run in which the input task signals through a message that is gone |
| IntuiActions.StepWorks | ROM/intuition/inputhandler_actions.c:584-717 | Every step but a new call lowers the work that is left |
| IntuiActions.NeverStuck | ROM/intuition/inputhandler_actions.c:584-717 | While anybody is inside a call or anything queued, some task can go on, unless a system gadget is being dragged |
| IntuiActions.EveryCallerReturns | ROM/intuition/inputhandler_actions.c:584-717 | Without new calls every run is finite and ends, unless a drag still goes on, with all callers returned and all actions handled |
| IntuiActions.EveryAsyncHandled | ROM/intuition/inputhandler_actions.c:643-717 | When such a run has ended, each message was handled exactly once, among them as many copies as asynchronous calls got their memory, and every copy is freed |
| Rendering.ClipRectangleFor | ROM/graphics/gfxfuncsupport.c:1166-1193 | Left and top edges relative to the area, right and bottom to its right and bottom or to its left and top |
| Rendering.ClipRectangleForBitmap | ROM/graphics/gfxfuncsupport.c:1197-1223 | The edges relative to the bitmap's, and without a clip rectangle the bitmap's own rectangle |
| Rendering.Drivers.CallRenderFunc | ROM/graphics/gfxfuncsupport.c:64-83 | One call and its pixel count, or none and 0 when there is no bitmap object |
| Rendering.Drivers.RenderPiece | ROM/graphics/gfxfuncsupport.c:163-221 | One round over the cliprects makes the piece's call, or none |
| Rendering.Drivers.DoRender | ROM/graphics/gfxfuncsupport.c:98-228 | With a layer each point of the rectangle is drawn exactly once, moved by the layer's place less its scroll, from the source position with the same offset, if the clip rectangle and a drawable piece hold it, in a hidden piece at the aligned place of the piece's bitmap, and nothing else is drawn; without a layer at the point itself; every call is made under the name of its bitmap if that is wanted; the answer is the sum of the areas |
| Rendering.Drivers.RequestMeans | ROM/graphics/gfxfuncsupport.c:118-217 | The same of the calls that the pieces make of a request, for any rastport, source and rectangle |
| Rendering.OnePiece | ROM/graphics/gfxfuncsupport.c:171-217 | A piece's call covers exactly its wanted pixels, each from the source origin plus its offset in the target |
| Rendering.ExactlyOnce | ROM/graphics/gfxfuncsupport.c:98-228 | Every wanted pixel is drawn exactly once, from the right source position, in layers that keep their hidden pieces and in those that do not |
| Rendering.OnlyWanted | ROM/graphics/gfxfuncsupport.c:98-228 | Nothing else is drawn |
| Rendering.PixelCount | ROM/graphics/gfxfuncsupport.c:360-367 | The answer of fillrect_render is the number of pixels in the rectangle |
| Rendering.CountExact | ROM/graphics/gfxfuncsupport.c:163-228 | The count is the number of wanted pixels if and only if the clip rectangle is not inside out, or it overlaps no drawable piece, or its width or height is 0 |
| Rendering.InvertedClip | ROM/graphics/gfxfuncsupport.c:1166-1193 | A concrete clip rectangle for which the count is -10 |
| Crc32.TableIsSerial | ROM/partition/crc32.c:9-48 | Every table entry is eight bit-serial steps of its index (RFC 1952, section 8) |
| Crc32.TableStep | ROM/partition/crc32.c:59-61 | A step of the loop is eight bit-serial steps |
| Crc32.ComputeBuf | ROM/partition/crc32.c:50-63 | The bit-serial CRC of the buffer |
| Crc32.Composes | ROM/partition/crc32.c:50-63 | The CRC of a, continued over b, is that of a followed by b |
| Crc32.SerialInjective | ROM/partition/crc32.c:59-61 | Different running values stay different over any bytes |
| Crc32.BurstDetected | ROM/partition/crc32.c:50-63 | Any change confined to four bytes in a row changes the result, wherever it lies |
| Crc32.Residue | ROM/partition/crc32.c:50-63 | A buffer with its own CRC behind it, lowest byte first, has the CRC 0x2144DF1C, whatever it was continued from |
| BootBlock.CheckSum | ROM/dosboot/bootstrap.c:81-106 | Accepts a block exactly when its second longword is the complement of the folded sum of the others |
| BootBlock.CarryIn | ROM/dosboot/bootstrap.c:92-94 | Adding with end-around carry is folding the true sum |
| BootBlock.LoopEnds | ROM/dosboot/bootstrap.c:84-86 | The loop ends if and only if the block has at most 65532 bytes |
| BootBlock.OrderIrrelevant | ROM/dosboot/bootstrap.c:86-95 | Permuting the longwords does not change the sum |
| BootBlock.FoldedMeans | ROM/dosboot/bootstrap.c:86-95 | Congruent to the true sum modulo 2^32 - 1, and zero only for all-zero longwords |
| BootBlock.OneChange | ROM/dosboot/bootstrap.c:86-95 | Changing one longword goes unnoticed exactly when 0 and 0xFFFFFFFF are exchanged beside a longword that is not 0 |
| BootBlock.OneWordChanged | ROM/dosboot/bootstrap.c:81-106 | The same for the bytes of an accepted block and any data longword |
| BootBlock.AcceptedInBytes | ROM/dosboot/bootstrap.c:81-106 | In bytes, the first of a longword the highest: accepted if and only if the weighed sum is a multiple of 2^32 - 1, not all bytes are zero, and a checksum with all bits set stands beside zeros only |
| Scroller.FindScrollerValues | ROM/intuition/propgclass.c:111-131 | The pot is the exact share rounded down for any 16-bit inputs; the body is if and only if the visible lines exceed the overlap by 0 to 65537 |
| Scroller.FindScrollerTop | ROM/intuition/propgclass.c:135-147 | The line nearest to the pot, without overflow |
| Scroller.RoundTrip | ROM/intuition/propgclass.c:111-147 | The same line comes back if and only if the remainder is at most 32767, else the one above it |
| Scroller.ExactWhenSmall | ROM/intuition/propgclass.c:111-147 | With at most 32768 hidden lines, and at both ends, the same line comes back |
| Scroller.OneLower | ROM/intuition/propgclass.c:111-147 | A concrete line that does not come back |
| Scroller.Monotone | ROM/intuition/propgclass.c:111-131 | A lower line never has a higher pot |
| Scroller.TopMonotone | ROM/intuition/propgclass.c:135-147 | A larger pot never has a smaller line |
| Scroller.PropGadget.constructor | ROM/intuition/propgclass.c:446-462 | The defaults are in step with each other |
| Scroller.PropGadget.Set | ROM/intuition/propgclass.c:252-391 | The attributes are those that the tags set one after the other; the top is clamped, pot and body of the current axis follow it, a changed top is announced if wanted |
| Scroller.TagOrderIrrelevant | ROM/intuition/propgclass.c:252-345 | Tags of different kinds may come in any order: the top is clamped by a total that comes later, too |
| Scroller.LastTagSets | ROM/intuition/propgclass.c:252-316 | Of each kind of tag the last one sets its own attribute, whatever else is in the list |
| Scroller.PropGadget.UpdateTop | ROM/intuition/propgclass.c:178-205 | The top is the line nearest to the pot; announced exactly when it changed or the update is final |
| Scroller.SetThenUpdate | ROM/intuition/propgclass.c:178-391 | An interim update right after setting the top changes and announces it exactly when the round trip loses a line |

## Left out

- Memory contents: MEMF_CLEAR, the bytes of blocks, alerts, mungwall and the low-memory handlers.
- Managed memory headers, the semaphores of pools and Forbid around the memory list: the allocator is sequential.
- First-time creation of a system header's index context, which allocates from the header itself.
- nommu_AvailMem, which would only add an easy sum.
- Pools.Pool.DeletePool: clearing the pool's magic number, which nothing in the model reads.
- PoolRuns.Clients.Free: a reservation is freed with the location that was asked for; ReserveThenFree says what becomes of it with the pointer that AllocAbs returned.
- Pools.Pool.InternalAllocPooled: the one loop over puddles, of which the last round makes a new puddle, is written as the scan of the list and then the attempt on a new puddle.
- Pools.Pool.AllocPooled: requests whose size computation would wrap around, or which would keep mhac_CalcIndex in its loop because a header has 2^31 bytes free or more, are excluded; FreshPuddleFits and CalcIndexEnds say what goes wrong for them. Runs (Lifetime, PoolRuns.Run) may ask for any size that does not wrap when no header spans 2^31 bytes.
- Memory.MemHeader.StdDealloc: asks for a size above zero inside the header's bounds; its callers check the former before, and the latter is what finding the header means.
- MemoryList.MemList.AllocAbs: asks for a size above zero, as nommu_AllocAbs does not handle zero and its caller turns it away.
- PnpIterators.ResourceContext.LockResource: allocation of the IO list node always succeeds. Memory resources never get an iterator, as in the source.
- CreateResource and the making of resource options out of iterators (`ROM/isapnp/pnp_iterators.c:715-826`).
- A direct call of DoSyncAction or DoASyncAction by the input task itself, which only calls the handler.
- IntuiActions.NeverStuck: HandleIntuiActions looks once per call whether a system gadget is being dragged; the model looks before each action it takes.
- Scroller.FindScrollerValues: an overlap of all lines, for which the source divides by zero; its only call passes 0 (`ROM/intuition/propgclass.c:383-391`).
- MemoryList.MemList.FreeMem: asks that the stretch ends inside the address space; the source adds without a check.
- Rendering.Drivers.DoRender: WORD and LONG wrap-around of coordinates and counts, update_bitmap and layer locking; ALIGN_OFFSET, whose definition is not part of this model, is an arbitrary function, and superbitmap layers draw nothing for obscured pieces, as in the source.
- Rendering of the knob, gadget activation and input handling of the proportional gadget.
- The device and card locking of `ROM/isapnp/devices.c`, window moving and sizing, boot menu, loaders and drivers.
