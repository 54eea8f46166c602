# lolib in Dafny

A Dafny 4.11 model of the data structures, allocators and codecs of lolib, with proofs. The C
library builds nginx-style event loops: timers in a red-black tree, memory from pools, slabs and
a shared-memory region, connections in per-thread pools, chains of buffers written with `writev`.
The model keeps the form of the code: structures that it updates in place are classes and arrays
with the same fields, loops are loops, and the branches, constants and error returns are those of
the C source. Each method is proved against a value (a sequence of nodes, a tiling of a region, a
run of a state machine, a text), and lemmas prove what that value promises.

`dafny verify dfyconfig.toml` checks everything.

| file | models | main results |
|---|---|---|
| `RbTree.dfy` | the red-black tree, pointers and all | colours, black heights, links and order after every insert and delete; refinement of a sorted sequence; height bound |
| `EventTimer.dfy` | the timer queue in that tree | one expire pass fires exactly the due timers, in order; the exact bound of the lazy deadline test |
| `FastMath.dfy` | logarithm, alignment | the shifting loop is the rounded logarithm |
| `ShmemState.dfy`, `Shmem.dfy` | the shared-memory allocator | tiling, free lists, sorted class list and counters agree in every reachable state; when exactly a request fails; full coalescing |
| `SlabClasses.dfy`, `SlabAllocator.dfy`, `Slabs.dfy` | the slab layer on that or any other allocator | lookup is least if and only if; the retry loop ends and fails only when nothing is left; conservation, and the exact effect of the refused free |
| `ConnMachine.dfy`, `ConnPool.dfy` | connection pools sharing a common list | invariants over every interleaved run; the pointer code refines the machine |
| `Feistel.dfy`, `DesTables.dfy`, `Des.dfy`, `DesStandard.dfy` | DES and Triple-DES | decryption inverts encryption for every key and block; the word-level code is the DES of NIST SP 800-67 |
| `GmTime.dfy` | `time_gmtime` | valid dates with exactly the POSIX seconds of the input, computed in wrapping 32-bit operations |
| `Queue.dfy` | the circular list and its sort | sorted, stable permutation on relinked pointers |
| `SysIo.dfy` | writing a chain of buffers | bytes are conserved for all answers of the kernel |
| `MemoryPool.dfy`, `PoolArray.dfy` | pools and growable arrays | live pieces stay aligned and disjoint; nothing leaks over the life of a pool; a push appends |
| `Base64.dfy`, `Uri.dfy` | Base64 and percent-encoding | round trips, for percent-encoding with its exact condition |

Conventions. Addresses are numbers; in the shared-memory allocator they are offsets into the
region, and the sizes of its headers are positive parameters. What the machine or the system
decides is nondeterministic or a parameter: whether memory is granted (it is finite in any case), what
`writev` answers, whether `mmap` succeeds, what the clock reads. In the tree each node carries
ghost fields with its place in the order and its black height, and the invariant ties them to the pointers; the
parent of the root and of the sentinel stays unconstrained, because the code leaves both stale.

Some properties turn out false of the code as it stands; for these the exact condition is proved:

- A shared-memory request of at most the least class size can fail although a free block is large
  enough (`Shmem.SmallRequestFails` reaches such a heap in four calls); `SearchIsComplete` says exactly
  when a request is served.
- The slab lookup skips the least class for linear classes with an unaligned smallest item, and
  finds nothing between two doubling classes (`LinearIsLeast`, `DoublingIsLeast`).
- `fast_slabs_free` refuses the last chunks although it has already listed them
  (`FreeAccepted`, `LastFreeIsRefused`).
- `fast_slabs_create` keeps the manager's block when its table is refused (`AllocTables`, with the heap
  of `TableCanBeRefused`).
- A large request on a pool whose limit is below the size of a large node always fails, after it has
  asked for memory until that was refused (`MemoryPool.Pool.Alloc`).
- The lazy deadline test keeps deadlines that are a multiple of 2^32 ms away (`LazyCanBeFar`).
- Percent-encoding for refresh headers does not escape the percent sign (`RoundTripExactly`).

## Model

| member | source | states |
|---|---|---|
| FastMath.FastLog2 | src/fast_math.c:568-580 | The shifting loop returns the exact logarithm: rounded down, the `i` with `2^i <= x < 2^(i+1)`; rounded up, the least `i` with `x <= 2^i`. |
| FastMath.AndPredecessor | src/fast_math.c:572-574 | The bit test `x & (x - 1)` is zero exactly for powers of two (and-ing is defined bit by bit, and the two sides are related by induction). |
| FastMath.IsPow2Exact | src/fast_math.c:572-579 | A positive number is a power of two exactly when it equals two to its rounded-down logarithm. |
| FastMath.UpDivBounds | src/fast_shmem.c:141-149 | Dividing and adding one for a remainder is the least quotient that covers the dividend. |
| FastMath.DivideUp | src/fast_shmem.c:84-87 | The divide-and-increment of both allocators gives the least count `q` of pieces of size `d` that covers `x`: `x <= q*d`, and one piece fewer would not do. |
| RbTree.Tree.constructor | src/fast_rbtree.c:22-41 | A new tree is a valid red-black tree with an empty order and a black sentinel. |
| RbTree.Tree.LeftRotate | src/fast_rbtree.c:315-337 | A left rotation at any node, the root included, keeps all child and parent links mutually consistent below the root and changes neither the in-order sequence nor any colour; it says exactly which links change. |
| RbTree.Tree.RightRotate | src/fast_rbtree.c:339-360 | The same for a right rotation. |
| RbTree.Tree.FindSlot | src/fast_rbtree.c:108-114 | The descent ends at a free child slot whose place in the order is behind every key that is less or equal and before every greater key. |
| RbTree.Tree.InsertValue | src/fast_rbtree.c:102-120 | Plain insertion of a red leaf puts the node into the order behind all keys up to its own, keeps the links consistent, and breaks no colour rule except possibly at the new node. |
| RbTree.Tree.InsertRecolour | src/fast_rbtree.c:66-71 | The red-uncle step keeps the invariant, now odd at the grandparent, which covers strictly more nodes: this is why the loop ends. |
| RbTree.Tree.InsertTurnLeft | src/fast_rbtree.c:72-80 | The rotating step for a left parent ends the loop: the invariant holds with a black parent. |
| RbTree.Tree.InsertTurnRight | src/fast_rbtree.c:88-96 | The mirrored step. |
| RbTree.Tree.InsertTurn | src/fast_rbtree.c:63-98 | One whole turn of the insert repair keeps the invariant and either ends the loop or moves the odd node to one that covers strictly more nodes. |
| RbTree.Tree.InsertFixup | src/fast_rbtree.c:63-99 | The repair loop ends and leaves a valid red-black tree with the same order of nodes. |
| RbTree.Tree.Insert | src/fast_rbtree.c:43-100 | Insertion keeps the red-black tree valid and refines insertion into a sorted sequence: the node stands behind every key less than or equal to its own, all others keep their order. |
| RbTree.Tree.Min | src/fast_rbtree.c:362-370 | The leftmost node of a subtree is the first node of its stretch of the order; from the root, the first of all. |
| RbTree.Tree.ChooseSubst | src/fast_rbtree.c:181-194 | The node that is cut out is the node itself when it has a missing child, otherwise its immediate successor in the order. |
| RbTree.Tree.RemoveRoot | src/fast_rbtree.c:195-204 | The early return for the root leaves a valid tree without the node, although the parent of the new root is left stale. |
| RbTree.Tree.CutOutNode | src/fast_rbtree.c:205-212 | Cutting out a node with at most one child removes exactly it from the order; black heights then agree except that the place of the child is one black short when the node was black. |
| RbTree.Tree.SubstituteNode | src/fast_rbtree.c:213-238 | Putting the successor into the place, links and colour of the deleted node removes exactly the deleted node from the order. |
| RbTree.Tree.DeleteRecolour | src/fast_rbtree.c:269-271 | With a black sibling and black nephews the missing black moves up to the parent, which covers strictly more nodes. |
| RbTree.Tree.DeleteLeftRedSibling | src/fast_rbtree.c:250-256 | A red sibling is turned away; the same node is short of a black and its sibling is black now. |
| RbTree.Tree.DeleteLeftInnerNephew | src/fast_rbtree.c:273-278 | Afterwards the sibling is the former inner nephew, black, with a red outer child. |
| RbTree.Tree.DeleteLeftOuterNephew | src/fast_rbtree.c:279-283 | The last rotation supplies the missing black: nothing is short any more. |
| RbTree.Tree.DeleteFixLeft | src/fast_rbtree.c:249-284 | One turn of the delete repair on the left keeps the invariant and moves to a node that covers strictly more nodes. |
| RbTree.Tree.DeleteFixRight | src/fast_rbtree.c:285-309 | The mirrored turn. |
| RbTree.Tree.DeleteTurn | src/fast_rbtree.c:247-310 | One whole turn of the delete repair, for either side, keeps the invariant and moves to a node that covers strictly more nodes. |
| RbTree.Tree.DeleteFixup | src/fast_rbtree.c:247-312 | The repair loop ends and leaves a valid red-black tree with the same order. |
| RbTree.Tree.Delete | src/fast_rbtree.c:170-313 | Deletion keeps the tree valid, removes exactly that node from the order and keeps all others in their order, and clears the links and the key of the node. |
| RbTree.Tree.InOrderIsSlice | src/fast_rbtree.c:102-168 | Walking the pointers of a subtree in order gives a contiguous slice of the abstract order. |
| RbTree.Tree.InOrderIsOrder | src/fast_rbtree.c:102-168 | Walking the whole tree in order gives exactly the sorted sequence that the operations are specified on. |
| RbTree.Tree.PathsAgree | src/fast_rbtree.c:43-100 | In every valid tree all paths from a node down to the sentinel carry the same number of black nodes. |
| RbTree.Tree.SizeAtLeast | src/fast_rbtree.c:43-100 | A subtree of black height `b` has at least `2^b - 1` nodes. |
| RbTree.Tree.HeightAtMost | src/fast_rbtree.c:43-100 | A subtree of black height `b` is at most `2b` high, and one less below a red node. |
| RbTree.Tree.HeightBound | src/fast_rbtree.c:43-100 | A valid tree with `n` nodes has `2^height <= (n + 1)^2`, that is, height at most `2*log2(n + 1)`. |
| EventTimer.EventTimer.FindTimer | src/fast_event_timer.c:48-66 | The wait is -1 when no timer is set; otherwise it is not negative, a positive wait ends exactly at the least key, and a wait of 0 means that the least key is due. |
| EventTimer.EventTimer.Del | src/fast_event_timer.c:68-80 | The event leaves the timer order, all others keep their place, and `timer_set` is off; a second call changes nothing. |
| EventTimer.EventTimer.Put | src/fast_event_timer.c:104-115 | An event without a timer is filed behind all timers that are due no later, and `timer_set` is on. |
| EventTimer.EventTimer.Add | src/fast_event_timer.c:82-116 | A deadline is either kept, when the lazy test holds, or replaced: the event is taken out and filed again behind all timers due no later; `timer_set` agrees with tree membership for every event. |
| EventTimer.EventTimer.Fire | src/fast_event_timer.c:30-38 | The first timer of the order is removed, its event is marked timed out, and no other event or key changes. |
| EventTimer.EventTimer.Expire | src/fast_event_timer.c:13-47 | One pass fires exactly the timers due at `now`, once each, in key order with ties in the order they were added; afterwards the next wait is positive or INFINITE. |
| EventTimer.LazyIsClose | src/fast_event_timer.c:94-95 | A deadline that the lazy test keeps is within 300 ms of the requested one exactly when the difference fits in 31 bits. |
| EventTimer.CloseIsLazy | src/fast_event_timer.c:94-95 | Every difference below 300 ms passes the lazy test. |
| EventTimer.LazyCanBeFar | src/fast_event_timer.c:94-95 | A difference of 2^32 ms passes the lazy test, because `abs` works on an `int`. |
| ShmemState.InsertIndexBounds | src/fast_shmem.c:93-110 | A block is filed under a class whose lower bound it reaches and whose upper bound it does not, in both class schemes. |
| ShmemState.AllocIndexBounds | src/fast_shmem.c:69-92 | A request is looked up in the least class whose bound covers it, in both class schemes. |
| ShmemState.IndexMonotone | src/fast_shmem.c:93-110 | Larger blocks are never filed under smaller classes. |
| ShmemState.HomeIsFound | src/fast_shmem.c:257-263 | In every state of the invariant a free block is on exactly the list that remove_free computes from its size and the cached last class, so the mismatch branch is dead. |
| ShmemState.ListedClass | src/fast_shmem.c:297-302 | A block on a free list has a size within the bounds of the class, clamped at both ends. |
| ShmemState.UnlistedSettles | src/fast_shmem.c:264-279 | Taking a free block off its list keeps the tiling, the lists and the sorted list of non-empty classes consistent, with its last entry cached. |
| ShmemState.FiledSettles | src/fast_shmem.c:297-325 | Filing a loose block keeps the same three indexes consistent and changes no live block. |
| ShmemState.SearchIsComplete | src/fast_shmem.c:351-400 | Searching the one class that is chosen finds a block exactly when the request can be served: a free block is large enough, where a request up to the least class size is served from class 0 alone while that class is not empty. |
| ShmemState.LastClassIsLargest | src/fast_shmem.c:472-488 | Every free block larger than a block of the last non-empty class is itself in that class. |
| ShmemState.Disjoint | src/fast_shmem.c:207-231 | Two different blocks never overlap, header included, and all lie inside the region. |
| ShmemState.TilesWithin | src/fast_shmem.c:207-231 | Blocks that tile a stretch of the region lie inside that stretch. |
| ShmemState.NothingLiveIsWhole | src/fast_shmem.c:547-583 | When nothing is allocated, the heap is the one free block that it started as, listed in its class and nowhere else. |
| ShmemState.WholeIsInv | src/fast_shmem.c:217-231 | The initial heap satisfies the invariant, with all counters at zero. |
| Shmem.Shmem.MakeUnavailable | src/fast_shmem.c:266-277 | From a sorted list of available classes with its last entry cached, exactly the emptied class is removed; the list stays sorted, and the cache holds its last entry again, or `free_len` when it is empty. |
| Shmem.Shmem.RemoveFree | src/fast_shmem.c:251-282 | It never reports a mismatch on a state of the invariant; the block leaves exactly its list. |
| Shmem.Shmem.MakeAvailable | src/fast_shmem.c:304-323 | A class that got its first block is put at its sorted place among the available classes. |
| Shmem.Shmem.InsertFree | src/fast_shmem.c:284-326 | A free block is filed at the head of the list of its clamped class, and all indexes agree again. |
| Shmem.Shmem.ChooseClass | src/fast_shmem.c:351-376 | The class searched is the class of the request, or the next one above it with a free block, or the last one; the branch without an answer is unreachable. |
| Shmem.Shmem.FirstFit | src/fast_shmem.c:384-400 | It finds the first block of the list that is large enough, and fails only when there is none. |
| Shmem.Shmem.HandOutWhole | src/fast_shmem.c:408-415 | A block handed out whole becomes live with its size; the state is valid and no other live block changes. |
| Shmem.Shmem.HandOutFront | src/fast_shmem.c:417-435 | A split hands out exactly the request and files the rest as a new free block; tiling, lists and counters agree again. |
| Shmem.Shmem.Serve | src/fast_shmem.c:402-435 | The chosen block is split exactly when the rest is at least a header and the split threshold, and the unlinking never fails. |
| Shmem.Shmem.Alloc | src/fast_shmem.c:328-436 | Allocation succeeds exactly for the requests that can be served; it hands out the first fitting block of the class searched, changes no other live block, and on failure changes nothing but the failure count, with the right error. |
| Shmem.Shmem.GetMaxSt | src/fast_shmem.c:450-489 | It returns a largest free block, and none exactly when nothing is free. |
| Shmem.Shmem.SplitAlloc | src/fast_shmem.c:491-524 | It hands out a largest free block whole, and fails exactly when that block is smaller than the least size wanted. |
| Shmem.Shmem.Swallow | src/fast_shmem.c:556-562 | Joining the free block behind keeps every index consistent; the REMOVE_NEXT error cannot occur. |
| Shmem.Shmem.JoinNext | src/fast_shmem.c:547-563 | After the look behind, the next block is allocated or there is none. |
| Shmem.Shmem.JoinInto | src/fast_shmem.c:573-580 | Joining into the free block in front; the REMOVE_PREV error cannot occur. |
| Shmem.Shmem.JoinPrev | src/fast_shmem.c:564-581 | After the look in front, the freed block has no free neighbour on either side. |
| Shmem.Shmem.Free | src/fast_shmem.c:526-584 | Freeing removes exactly that block from the live ones and keeps the invariant: blocks tile the region, no two neighbours are both free, counters match; the free block that the memory became part of is the first one of its list; a block that is not allocated is refused unchanged. |
| Shmem.Shmem.constructor | src/fast_shmem.c:198-231 | A new heap is one free block that fills the region behind the system part. |
| Shmem.ClassesFor | src/fast_shmem.c:138-161 | The class count is the least one whose last class reaches the largest size. |
| Shmem.Create | src/fast_shmem.c:112-234 | Each error is reported for exactly its arguments, in the order of the checks; otherwise the heap is valid, whole, page-rounded, and its block holds the largest size. |
| Shmem.ReleaseAll | src/fast_shmem.c:526-584 | Releasing all live blocks in any order restores the single initial free block and zero counters. |
| Shmem.SmallHeap | src/fast_shmem.c:112-234 | For every layout of the headers, creation with least size 8 succeeds and gives one free block at least as large as asked. |
| Shmem.SmallRequestFails | src/fast_shmem.c:74-76 | After allocating 2 and 4 bytes and freeing the first, a request for 5 bytes is refused although the large free block behind has room: class 0 holds the freed 2 bytes and is searched alone. |
| SlabClasses.LinearLookup | src/fast_slabs.c:63-70 | The linear formula is in range, sufficient, and at most one class too high. |
| SlabClasses.LinearLeast | src/fast_slabs.c:63-70 | It is the least sufficient class when the smallest item is aligned. |
| SlabClasses.LinearIsLeast | src/fast_slabs.c:63-70 | For linear classes the lookup is least for every size if and only if the smallest item is a multiple of the alignment or there are only two classes. |
| SlabClasses.DoublingIsLeast | src/fast_slabs.c:72-91 | For doubling classes every size that some class holds gets the least such class if and only if there are more than two classes or the two sizes are equal or adjacent; with two classes the search falls through. |
| Slabs.Manager.ClassId | src/fast_slabs.c:35-92 | The lookup, binary search included, answers the least sufficient class (doubling classes), the rounded formula (linear classes), or INVALID_ID, for every size and table. |
| Slabs.FoundHolds | src/fast_slabs.c:35-92 | Every class that the lookup answers holds the request and its header. |
| Slabs.Manager.GiveBack | src/fast_slabs.c:230-237 | The first cached chunk of a class goes back to the allocator: its piece is no longer held, every other piece is held as before, and the counters stay exact. |
| Slabs.Manager.Forget | src/fast_slabs.c:232-234 | Giving a piece back frees exactly that piece and forgets exactly that chunk. |
| Slabs.Manager.Drain | src/fast_slabs.c:243-258 | One class below gives chunks back from the head of its list until it is empty or the bytes are enough, and not one chunk more; exactly the pieces of the chunks that are gone are freed. |
| Slabs.Manager.Recover | src/fast_slabs.c:215-266 | It gives back one chunk of the next class above that has one, or else chunks of the classes below, nearest first, up to twice the chunk size; it says NOSPACE exactly when no other class has a cached chunk, and every other answer strictly shrinks the cache; exactly the pieces of the chunks that are gone are freed. |
| Slabs.Manager.RecoverBelow | src/fast_slabs.c:242-265 | The downward part of it: classes below are drained nearest first until enough bytes are given back, and exactly the pieces of the chunks that are gone are freed. |
| Slabs.Manager.Obtain | src/fast_slabs.c:298-311 | Over any allocator that may refuse, the allocate-recover-retry loop ends; when it fails every free list is empty and the allocator has just refused. Exactly the pieces of the chunks that are gone were freed, and the piece granted is new or one of those. Over the shared-memory allocator the error record is clean exactly when the first request could be served. |
| Slabs.Manager.Retry | src/fast_slabs.c:304-311 | One turn of that loop shrinks the cache and asks again, or has found nothing to give back and changed nothing. |
| Slabs.Manager.HandOutCached | src/fast_slabs.c:316-331 | The head of the free list is handed out and moves from the free sum to the used and requested sums. |
| Slabs.Manager.HandOutNew | src/fast_slabs.c:312-331 | A new chunk is counted once, as used. |
| Slabs.Manager.Alloc | src/fast_slabs.c:268-338 | Conservation over any allocation and any allocator: handed-out chunks stay as they are, the new one was not handed out, counters stay as exact as they were; a cached chunk is the head of its list, and otherwise exactly the pieces of chunks that are gone were freed and one piece granted; a failure for a valid class leaves nothing cached and an allocator that has just refused. |
| Slabs.Manager.AllocNew | src/fast_slabs.c:298-330 | The part of it for a class without a cached chunk, with the failure counted. |
| Slabs.Manager.SplitAlloc | src/fast_slabs.c:340-400 | One piece of the allocator becomes one chunk, over the shared-memory allocator a largest free block; it fails exactly for the reasons it reports (no request, no split function, too large, refused), changing nothing. |
| Slabs.Manager.Free | src/fast_slabs.c:402-447 | A freed chunk becomes the head of the free list of its class (or is given back when it was split off, and then exactly its piece is freed); when the early error return fires, the counters are behind by exactly that chunk. |
| Slabs.Manager.FreeSplit | src/fast_slabs.c:423-433 | A split chunk goes back to the allocator with exact counters. |
| Slabs.Manager.FreeCached | src/fast_slabs.c:434-446 | The chunk becomes the head of its list in any case; the error return fires exactly when the used count is below the class size. |
| Slabs.FreeAccepted | src/fast_slabs.c:437-440 | With exact counters a free is accepted if and only if the chunks that stay handed out hold at least a header's size of bytes. |
| Slabs.LastFreeIsRefused | src/fast_slabs.c:437-440 | So the only chunk handed out can never be freed without an error. |
| Slabs.ChunksDisjoint | src/fast_slabs.c:268-338 | Chunks of a manager never overlap, whatever the allocator; over the shared-memory allocator they lie inside its region. |
| SlabAllocator.Allocator.Alloc | src/fast_slabs.c:298-308 | What the manager relies on: a piece granted was not held and nothing else held changes, a refusal changes nothing; the shared-memory allocator grants exactly what it can serve, any other may refuse. |
| SlabAllocator.Allocator.SplitAlloc | src/fast_slabs.c:376-377 | The same for the split entry; the shared-memory allocator grants a largest free block exactly when one is large enough. |
| SlabAllocator.Allocator.Free | src/fast_slabs.c:427-428 | Exactly the freed piece is no longer held. |
| SlabAllocator.Allocator.HeldApart | src/fast_slabs.c:298-308 | Pieces that are held do not overlap. |
| Slabs.DroppedStats | src/fast_slabs.c:235-237 | Dropping a cached chunk lowers the free sum by its size and the chunk count by one. |
| Slabs.PoppedStats | src/fast_slabs.c:317-328 | Handing out a cached chunk moves its size from the free sum to the used sum. |
| Slabs.PushedStats | src/fast_slabs.c:442-444 | Caching a chunk moves its size back. |
| Slabs.AddedStats | src/fast_slabs.c:312-328 | A new chunk adds its size and request to the sums. |
| Slabs.RemovedStats | src/fast_slabs.c:424-426 | A split chunk that is freed takes its size and request out of the sums. |
| Slabs.CountClasses | src/fast_slabs.c:116-141 | The class count is the least whose last class holds the largest item. |
| Slabs.SizeTable | src/fast_slabs.c:155-164 | The table holds the aligned size of every class, header included. |
| Slabs.AllocTables | src/fast_slabs.c:142-153 | The two pieces of a manager are both held, or the first refusal is reported; when the second is refused, the block of the manager stays allocated. |
| Slabs.TableCanBeRefused | src/fast_slabs.c:142-153 | For every size of the manager there is a heap, reached by creation and one allocation, on which creating a manager fails with the allocator error and leaves exactly the manager block allocated. |
| Slabs.Create | src/fast_slabs.c:94-176 | Each error is reported for exactly its arguments or refusals, and what is held then is said exactly; otherwise the manager is valid, empty, with exact counters, and its classes cover the largest item. |
| ConnMachine.StepPool | src/fast_conn_pool.c:95-140 | Every step keeps, for its pool, that free plus used minus debt is the pool size, also between the locked section and the later counter update. |
| ConnMachine.StepBalance | src/fast_conn_pool.c:156-222 | Every step keeps the sum of all debts plus the common connections (and those in transfer) at zero. |
| ConnMachine.StepPlaces | src/fast_conn_pool.c:95-222 | Every step keeps every connection in exactly one place. |
| ConnMachine.StepKeeps | src/fast_conn_pool.c:95-222 | All three invariants are kept by every step of every pool. |
| ConnMachine.RunKeeps | src/fast_conn_pool.c:95-222 | And over every interleaved run of any number of pools. |
| ConnMachine.RunFromStart | src/fast_conn_pool.c:13-66 | From pools as conn_pool_init leaves them, every run satisfies the invariants. |
| ConnMachine.NeverShared | src/fast_conn_pool.c:95-124 | Two pools never hold the same connection. |
| ConnMachine.TakesWhatIsThere | src/fast_conn_pool.c:167-210 | An empty pool in deficit takes its whole deficit or all that is there, whichever is less, and then has a connection to hand out. |
| ConnMachine.Recovers | src/fast_conn_pool.c:95-124 | If no pool is owed anything and nothing is in transfer, an empty pool in deficit recovers its whole deficit on the next get. |
| ConnPool.Pool.Init | src/fast_conn_pool.c:13-66 | All connections are linked into the free list, once each; it fails exactly for size 0 or when one of the three allocations (connections, read events, write events) fails. |
| ConnPool.Pool.PutCommon | src/fast_conn_pool.c:156-166 | The connection becomes the head of the linked common list. |
| ConnPool.Pool.GetCommon | src/fast_conn_pool.c:167-210 | The first `n` connections, or all, are cut off as a linked list of their own, and the count reported is their number. |
| ConnPool.Pool.Walk | src/fast_conn_pool.c:192-197 | The walk ends at the last connection to take and the first to leave. |
| ConnPool.Pool.GetConnection | src/fast_conn_pool.c:95-124 | It answers null exactly when the own list is empty and there is no deficit or nothing common, and then nothing changed; otherwise it returns the head of the own list, or the head of the common list after taking the deficit or all that is there, and exactly this connection is held and counted as used from then on. |
| ConnPool.Pool.Fetch | src/fast_conn_pool.c:103-117 | The locked take and the local refill move the front of the common list into the pool. |
| ConnPool.Pool.PopFree | src/fast_conn_pool.c:119-123 | The head of the free list is handed out and counted. |
| ConnPool.Pool.FreeConnection | src/fast_conn_pool.c:126-140 | A pool that is owed connections puts the connection in front of the common list and settles one; any other puts it in front of its own list; it is no longer held or counted as used. |
| ConnPool.Pool.TransferOut | src/fast_conn_pool.c:212-216 | The counters after giving connections away are those of the lending step of the state machine. |
| ConnPool.Pool.TransferIn | src/fast_conn_pool.c:218-222 | The counters after receiving connections are those of the receiving step. |
| ConnPool.GetIsRun | src/fast_conn_pool.c:95-124 | A whole get is a run of the state machine. |
| ConnPool.FreeIsRun | src/fast_conn_pool.c:126-140 | A whole free is a run of the state machine. |
| ConnPool.OutIsRun | src/fast_conn_pool.c:212-216 | Giving connections away is a run of the state machine; the connections are in transfer afterwards. |
| ConnPool.InIsRun | src/fast_conn_pool.c:218-222 | Receiving connections that are in transfer is a run of the state machine. |
| ConnPool.TransferIsRun | src/fast_conn_pool.c:212-222 | A transfer from one pool to another is a run of two steps that moves exactly these connections and keeps every invariant. |
| ConnPool.Start | src/fast_conn_pool.c:13-66 | Any number of pools set up one after the other, and an empty common list, are an initial system of the state machine. |
| Feistel.RoundsBack | src/fast_math.c:287-297 | Running any number of rounds and then, with the halves swapped, the same rounds in reverse order gives the start back, for every mixing function that undoes itself. |
| Feistel.PassBack | src/fast_math.c:445-456 | The same for a whole pass. |
| Des.PermutationsInverse | src/fast_math.c:255-278 | The two permutation macros undo each other, in both directions. |
| Des.ReadWrite | src/fast_math.c:302-310 | Reading eight bytes into two words and writing them back is the identity, in both directions. |
| Des.MixTwice | src/fast_math.c:287-297 | Mixing the same round key in twice changes nothing. |
| Des.KeySchedule | src/fast_math.c:323-408 | The loop stores the 32 subkeys of the schedule at the place asked for and nothing else. |
| Des.SetKey | src/fast_math.c:410-422 | The decryption keys are the encryption keys in reverse round order. |
| Des.Set3Keys | src/fast_math.c:489-510 | The arrays of 96 subkeys are key 1 forwards, key 2 backwards, key 3 forwards, and the exact reverse for decryption. |
| Des.Set2Keys | src/fast_math.c:465-487 | Two keys give the very arrays that three keys with the first one repeated give. |
| Des.DesRound | src/fast_math.c:287-297 | The round macro, with its eight table lookups, mixes one subkey pair into a half. |
| Des.SixteenRounds | src/fast_math.c:447-454 | Sixteen rounds on alternating halves are sixteen Feistel rounds with the subkeys in order. |
| Des.EcbCrypt | src/fast_math.c:435-463 | A block is encrypted or decrypted in place or from another buffer, reading before writing; the count returned is the length of the text when the last byte is zero. |
| Des.EcbCrypt3 | src/fast_math.c:512-552 | The same for 48 rounds. |
| Des.CryptBack | src/fast_math.c:435-463 | For any 32 subkeys at all, encryption with them reversed undoes encryption. |
| Des.Crypt3Back | src/fast_math.c:512-552 | For any 96 subkeys at all, the same. |
| Des.DesRoundTrip | src/fast_math.c:410-463 | DES decryption inverts encryption for every key and every block. |
| Des.TripleDesRoundTrip | src/fast_math.c:489-552 | Triple-DES decryption inverts encryption for every three keys and every block. |
| Des.TripleDesIsDes | src/fast_math.c:489-552 | With equal first and second key, Triple-DES is DES under the third key. |
| Des.TripleDesIsThreeDes | src/fast_math.c:489-552 | Triple-DES is DES encryption, decryption and encryption one after the other, although the code skips the permutations in between. |
| DesStandard.InitialIsStandard | src/fast_math.c:250-264 | The swaps are the initial permutation table of NIST SP 800-67, with both halves rotated by one bit. |
| DesStandard.FinalIsStandard | src/fast_math.c:266-278 | And the inverse permutation table. |
| DesStandard.KeyStartIsStandard | src/fast_math.c:330-353 | The lookups in the swap tables are permuted choice 1 of the standard. |
| DesStandard.KeysAreStandard | src/fast_math.c:355-360 | The rotated key halves after each round are those of the standard, shift table included. |
| DesStandard.BoxesAreStandard | src/fast_math.c:9-119 | Every entry of the eight combined tables is the entry of the S-box of the standard, sent through permutation P and the rotation. |
| DesStandard.MixIsStandard | src/fast_math.c:287-297 | One round with its packed subkeys is the cipher function of the standard: expansion, S-boxes and P. |
| DesStandard.RoundsAreStandard | src/fast_math.c:445-454 | After any number of rounds the two words are those of the standard, rotated. |
| DesStandard.DesIsStandard | src/fast_math.c:435-463 | The word-level code computes the DES of section 3 of NIST SP 800-67, defined bit by bit from its tables, for every key and block. |
| GmTime.EstimateIsClose | src/fast_time.c:96-102 | For every non-negative day count the estimated year is never low and at most one too high. |
| GmTime.MarchYearLength | src/fast_time.c:97-101 | Years that begin in March differ by 365 days, or 366 when the Gregorian leap rule says so. |
| GmTime.MonthFormula | src/fast_time.c:110-113 | The formula finds the month that a day of a March year lies in. |
| GmTime.DateFound | src/fast_time.c:96-128 | The day, month and year found from a March year are the Gregorian date of that day. |
| GmTime.WeekdayAgrees | src/fast_time.c:77-78 | The weekday counted from 1970-01-01 agrees with an independent weekday rule for the date. |
| GmTime.PosixAgrees | src/fast_time.c:88-89 | The shifted day count agrees with the formula of POSIX.1-2017 Base Definitions section 4.16. |
| GmTime.CivilDate | src/fast_time.c:96-128 | The year, month and day assigned step by step are a valid Gregorian date whose day count is the one given. |
| GmTime.Broken | src/fast_time.c:74-135 | For every time, without bound, the fields are a valid date and time of day whose POSIX seconds are the time, with the right weekday. |
| GmTime.CivilDate32 | src/fast_time.c:96-128 | The year, month and day computed in 32-bit operations are the date of the day count, for every day that a 32-bit time can reach. |
| GmTime.TimeGmtime | src/fast_time.c:66-136 | With every operation cut to 32 bits, as the code computes it, the fields denote exactly the time cut to 32 bits: subtractions below zero wrap and come back. |
| GmTime.DateIsUnique | src/fast_time.c:96-128 | A day count has only one Gregorian date. |
| GmTime.FieldsAreUnique | src/fast_time.c:66-136 | Only one record of fields denotes a time, so the 32-bit and the unbounded calculation agree. |
| GmTime.NoOverflow | src/fast_time.c:89-97 | For every 32-bit time, the products and sums that must not wrap stay below 2^32, and the subtractions that may go below zero stay within reach of a signed 32-bit value. |
| Queue.Init | src/fast_queue.h:20-23 | An initialised queue is an empty ring. |
| Queue.InsertAfter | src/fast_queue.h:46-76 | A node is put behind any node of the ring, the head included; next and previous links stay mutually inverse. |
| Queue.Remove | src/fast_queue.h:86-91 | Exactly that node leaves the ring, with cleared links. |
| Queue.Split | src/fast_queue.h:93-101 | The ring is cut into two rings at the node. |
| Queue.AddQueue | src/fast_queue.h:78-84 | A ring, even an empty one, is appended to another. |
| Queue.Middle | src/fast_queue.c:12-34 | The two cursors end at the node at index `n/2`, for every length; for the empty queue at the head. |
| Queue.FindPlace | src/fast_queue.c:51-56 | The backward scan stops behind the last node of the sorted part that is not greater. |
| Queue.InsertNext | src/fast_queue.c:48-57 | One turn moves the next node to its place in the sorted part. |
| Queue.Sort | src/fast_queue.c:36-59 | The relinked ring holds the insertion-sorted sequence of the same nodes, with links mutually inverse. |
| Queue.SortedSame | src/fast_queue.c:36-59 | Sorting is a permutation of the nodes. |
| Queue.SortedIsInOrder | src/fast_queue.c:36-59 | For every total preorder the result is in order. |
| Queue.SortIsStable | src/fast_queue.c:36-59 | Nodes that compare equal keep their order. |
| SysIo.ConsumedBytes | src/fast_chain.c:249-274 | After an update for `n` bytes exactly the first `n` pending bytes are gone. |
| SysIo.ConsumedSound | src/fast_chain.c:249-274 | The remaining pieces still lie in memory and are disjoint. |
| SysIo.WriteUpdate | src/fast_chain.c:249-274 | The buffers are advanced in place to that state, and the link returned is the one to go on with. |
| SysIo.ResumeTight | src/fast_chain.c:249-274 | No link behind the one returned was touched, and the last byte gone was in it or in the one before it. |
| SysIo.ChainSize | src/fast_chain.c:45-56 | The sum over the links is the number of pending bytes. |
| SysIo.NotShared | src/fast_sysio.c:412-418 | Two disjoint buffers with pending bytes never start at the same address, so the merging branch is dead for such chains. |
| SysIo.Pack | src/fast_sysio.c:388-424 | The vector holds exactly the next pending bytes, in order, cut at the limit, and stops early only when it is full; it is empty exactly when nothing is pending. |
| SysIo.SystemWritev | src/fast_sysio.c:436-437 | The kernel answers with any count up to the size offered, or with any error number, and takes exactly the bytes of the count. |
| SysIo.Writev | src/fast_sysio.c:426-456 | An interrupted call is repeated; the first other answer is handed on: a positive count as it is, not ready as AGAIN, and zero or any other error as ERROR; exactly the bytes of that count are written. |
| SysIo.AdvancedBy | src/fast_chain.c:249-274 | The links from the one returned are what is left after the bytes written. |
| SysIo.WriteOnce | src/fast_sysio.c:234-266 | One turn writes a front of the pending bytes, counts it in `sent`, and advances the chain by it. |
| SysIo.Turn | src/fast_sysio.c:227-281 | The same within a run: what was written before and what is pending now stay the bytes that were pending at the start. |
| SysIo.WritevChain | src/fast_sysio.c:205-287 | Whatever the kernel answers: the bytes accepted, in order, followed by the bytes still pending are the bytes pending on entry; `sent` grows by exactly that count; no more than the limit is offered, where 0 or more than 2147479552 means 2147479552; on a ready connection the loop ends only when exactly the limit was offered, at an answer that is not a count, or when nothing is left; the link to go on with, the readiness and the error returned match the last answer. |
| MemoryPool.Pool.constructor | src/fast_memory_pool.c:31-41 | A new pool has one block, with nothing handed out. |
| MemoryPool.Block.Take | src/fast_memory_pool.c:117-121 | A piece is cut from the front of the free part, aligned, behind all earlier pieces. |
| MemoryPool.Block.Extend | src/fast_array.c:114-117 | The piece at the front grows without touching the others. |
| MemoryPool.Pool.LiveApart | src/fast_memory_pool.c:105-210 | All live pieces are 8-byte aligned, lie behind the header of one block or are a region of their own, and are pairwise disjoint. |
| MemoryPool.Pool.FromBlocks | src/fast_memory_pool.c:114-123 | The first block from the current one on that has room serves the request; it fails only when none has. |
| MemoryPool.Pool.LastBlock | src/fast_memory_pool.c:170-174 | The walk ends at the last block; the next searches are to start right behind the last full block from the current one on, the last block not counted, if there is one. |
| MemoryPool.Pool.AllocBlock | src/fast_memory_pool.c:142-179 | A block of the size of the first is appended with the piece at its aligned start; other blocks stay, and the searches begin behind the last full block, or at the new one. |
| MemoryPool.Pool.Alloc | src/fast_memory_pool.c:105-127 | A request adds one live piece, apart from all others (and a node for a large one); it is cut from the first block with room from the current one on, else from one new block, and fails only when the memory refuses. A large request on a pool whose limit is below the size of a large node is repeated until the memory refuses, and then everything is freed again and nothing is returned. |
| MemoryPool.Pool.AllocLarge | src/fast_memory_pool.c:181-210 | A large piece gets a region and a node and comes first on the list of large pieces; when the node cannot be had, the region is freed again and nothing is kept. The mutual recursion ends on every pool, because memory is finite. |
| MemoryPool.Pool.AtFront | src/fast_array.c:114-115 | A live piece that ends where the first block is filled to is a piece of the first block. |
| MemoryPool.Pool.ExtendFirst | src/fast_array.c:114-117 | Growing it in place replaces exactly that piece by the longer one. |
| MemoryPool.Pool.Destroy | src/fast_memory_pool.c:75-103 | Every region of the pool is freed, each once, and nothing else. |
| MemoryPool.Create | src/fast_memory_pool.c:16-43 | The sizes of the first block and of the largest piece are those the arguments ask for; it fails only for size 0 or when the memory refuses. |
| MemoryPool.Lifetime | src/fast_memory_pool.c:16-210 | From creation over any requests, of any size and on any pool, to destruction, the memory ends with exactly the regions it began with. |
| PoolArray.Array.Init | src/fast_array.c:38-58 | The array owns a new piece with room for `n` elements, and holds none; it fails only for a zero count or size or when the memory refuses. |
| PoolArray.Array.Copy | src/fast_array.c:120-127 | The elements are copied to a place that does not overlap. |
| PoolArray.Array.GrowInPlace | src/fast_array.c:112-117 | One element of room is added to the piece in place. |
| PoolArray.Array.Move | src/fast_array.c:118-127 | The array moves to a piece twice the size with the same contents; no other live piece changes. |
| PoolArray.Array.Grow | src/fast_array.c:107-137 | Room for one more element with the same contents: nothing is done while there is room, the piece grows in place at the front of the pool, and otherwise it moves to twice the size; it fails only when the memory refuses. |
| PoolArray.Array.Push | src/fast_array.c:93-142 | The new element stands right behind the old contents, which are unchanged, and no other live piece of the pool changes. |
| PoolArray.Array.Append | src/fast_array.c:93-142 | A push and the stores into its element append exactly those bytes to the contents. |
| PoolArray.Plain.Init | src/fast_array.c:38-58 | Without a pool the array owns a region of its own with room for `n` elements. |
| PoolArray.Plain.Push | src/fast_array.c:93-142 | Without a pool a full array refuses to grow; otherwise the new element stands right behind the old contents, inside the region. |
| PoolArray.Plain.Destroy | src/fast_array.c:67-79 | Exactly the region of the array is freed. |
| Base64.GroupsByShifts | src/fast_string.c:802-805 | The shifted and masked bytes are the four six-bit groups of the 24-bit group that section 4 of RFC 4648 defines. |
| Base64.SymbolOfAlphabet | src/fast_string.c:794-795 | The symbol of a six-bit value stands at that position of the written-out alphabet of section 4 of RFC 4648. |
| Base64.ValueIsPosition | src/fast_string.c:828-846 | The value of a byte is its position in that alphabet, and the byte is refused exactly when it is not in it. |
| Base64.BytesFromGroups | src/fast_string.c:862-864 | The shifts of the decoder give the three bytes back. |
| Base64.EncodedLength | src/fast_string.c:789-821 | The text has `4*ceil(n/3)` symbols. |
| Base64.EncodedIsBase64 | src/fast_string.c:789-821 | Symbol `k` stands at the position that bits `6k` to `6k+5` of the input make, zeros following its end; the last symbols that fill the last group up, and no others, are `=`. |
| Base64.Encode | src/fast_string.c:789-821 | The loop and the tail write exactly that text for every byte string. |
| Base64.Scan | src/fast_string.c:848-858 | The scan finds the symbols before the first pad and whether all are in the alphabet. |
| Base64.SymbolsAreFront | src/fast_string.c:848-851 | The symbols that count are those in front of the first `=`. |
| Base64.DecodedMeans | src/fast_string.c:861-874 | The bytes decoded are the six bits of each symbol one after the other, cut to whole bytes, for every text of symbols, canonical or not. |
| Base64.Decode | src/fast_string.c:823-876 | It fails exactly for a symbol outside the alphabet or a count of symbols one above a multiple of four, writing nothing; otherwise it writes those bytes, and no more room than they need is asked for. |
| Base64.QuadDecodes | src/fast_string.c:861-873 | Four, three or two symbols of an encoded group give three, two or one bytes back. |
| Base64.RoundTrip | src/fast_string.c:789-876 | Decoding an encoded byte string gives it back, for every byte string. |
| Uri.PercentEscaped | src/fast_string.c:991-1088 | Every escape map but the one for refresh headers escapes the percent sign. |
| Uri.MapsAre | src/fast_string.c:991-1084 | Each of the six bit maps is exactly the set of bytes written out: control bytes and space in all, and the listed punctuation and upper bytes in each. |
| Uri.EscapedLength | src/fast_string.c:1091-1101 | The escaped text is longer by two for each byte that the counting call counts. |
| Uri.CountEscapes | src/fast_string.c:1091-1101 | The call without a destination counts the bytes that must be escaped, which tells exactly the room that escaping needs. |
| Uri.EscapedIs | src/fast_string.c:1102-1112 | Every byte stands, in order, for itself or, if it must be escaped, for a percent sign and its two lower-case hexadecimal digits, and nothing else is written. |
| Uri.Escape | src/fast_string.c:1102-1112 | The loop writes exactly that text for every byte string and every kind, within that room. |
| Uri.NeverLonger | src/fast_string.c:1115-1209 | In every mode, no more bytes are written than were read. |
| Uri.RunIsUnescaped | src/fast_string.c:1130-1205 | The state machine, in all four modes, computes a definition that reads one percent sequence at a time: what is decoded, what stays escaped, what is dropped, and where the text ends. |
| Uri.Unescape | src/fast_string.c:1115-1209 | The state machine with all flags writes the unescaped text, with the destination before, at or behind the source in one buffer (behind it, with room for the result), moves both cursors exactly, and touches nothing else. |
| Uri.StopsAtQuestion | src/fast_string.c:1134-1185 | The URI flag only cuts the plain result off, right behind a question mark. |
| Uri.RoundTrip | src/fast_string.c:985-1209 | Unescaping (type 0) undoes escaping for every text when the map escapes the percent sign, or the text has none. |
| Uri.Loses | src/fast_string.c:1049-1058 | With a map that lets the percent sign through, every such sign costs weight in a measure of the text, so the text cannot come back. |
| Uri.RoundTripExactly | src/fast_string.c:985-1209 | The round trip holds of a text if and only if the kind is not refresh or the text has no percent sign. |

## Left out

- EventTimer.EventTimer.Add: timer keys are unbounded integers, so the 64-bit wrap of `now + timer` is not modelled; the 32-bit cut in the lazy test is.
- EventTimer.EventTimer.Expire: the clock reads the same throughout one pass, and handlers leave the timers alone.
- RbTree.Tree.Insert: keys are unbounded integers; `rbtree_insert_timer_value` differs from `rbtree_insert_value` only in null checks and a cast that changes nothing for its 64-bit key type.
- Shmem.Shmem.Alloc: the intrusive queues of the region (order, free lists, available classes) are sequences in fields, and block headers are a map by offset, so the pointer writes of the queue macros are modelled in Queue only; sizes do not wrap at 64 bits.
- Shmem.Shmem.Free: the address belongs to a block; the null checks of this and the other shared-memory functions are left out.
- Shmem.Create: a linear factor of zero, which divides by zero in the source, is excluded.
- Slabs.Manager.Alloc: free lists are sequences; null checks, and the errors of an allocator table without the alloc or the free function, are left out.
- Slabs.Manager.HandOutCached: the counter of free bytes is an unbounded integer; a chunk that was listed by a refused free and is handed out again can take it below zero, where the unsigned counter of the source wraps.
- Slabs.Manager.Free: the allocator's answer for a split chunk is never an error here, because the block is proved to be allocated.
- ConnPool.Pool.GetConnection: a section under the common lock is one step of the machine; the compare-and-swap lock itself, and freeing a whole pool, are left out.
- ConnPool.Pool.Init: only the free list and the counters of a connection are modelled, not its events.
- Des.SixteenRounds: the written-out round macros are a loop over pairs of rounds.
- Des.EcbCrypt: the weak-key test and the makekey functions are left out.
- GmTime.TimeGmtime: `tm_yday` is not set by the source and not modelled.
- Queue.Sort: the comparison is a function of the two nodes that reads nothing else.
- SysIo.WritevChain: buffers are in memory and disjoint; file buffers, which end the loop, are left out.
- SysIo.Writev: only finitely many calls in a row are interrupted by a signal.
- SysIo.Pack: the branch that lengthens the last piece is reached only by buffers that start at the same address, which disjointness excludes.
- MemoryPool.Pool.Alloc: memory is finite, so that every chain of requests meets a refusal.
- PoolArray.Array.Push: the branch for a full array without a pool behind the early return is dead and left out, and so are array_create, array_reset, and destroying an array of a pool, which only moves the fill mark of the first block back.
- Uri.Escape: the kind is one of the six maps; other numbers index past the table in the source.
- Pools: pool_reset keeps large pieces listed in reclaimed space, and pool_memalign is pool_alloc_large with another allocation; both are left out.
- fast_slabs_release: its first test refuses every caller that passes an error record, so its body is not modelled.
- System-call plumbing: sockets, epoll, pipes, channels, processes, logging, mutex and rwlock wrappers.
- fast_conf.c and fast_conf_base.c: a tokeniser tied to callbacks and raw structure offsets.
- fast_commpool.c, fast_mblks.c, fast_half_life_mempool.c, fast_list.c, fast_hashtable.c: easier relatives of the invariants proved here.
- chain_append_withsize, sendfile chains, UTF-8, number and HTML formatting, error-text tables and dumps.
