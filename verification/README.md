# YATOS verification model

A Dafny model of the parts of the YATOS kernel, and of its bundled Kconfig tool, whose
correctness rests on an argument that the code itself does not spell out, with proofs of what
those parts promise. `dafny verify dfyconfig.toml` checks everything.

| files | component | main results |
|---|---|---|
| `Blocks`, `BuddySpec`, `Buddy`, `Regions` | buddy page allocator | the head-frame protocol keeps an exact partition into aligned blocks; the merge test never reads a stale `order`; no two free buddies coexist, so the queues are a function of the set of free pages, a request takes the first block of the least order that suffices, "no memory" means no aligned free run, and allocate-then-free restores every queue |
| `SlabLayout`, `Slab`, `SlabCache` | slab caches over the buddy pool | three-queue bookkeeping by object count, with partly used slabs first; any two live objects of any caches are disjoint, by composing the layout of a slab with the disjointness of blocks; exactly which sizes leave a slab without an object |
| `Sides`, `RbSpec`, `RbTree`, `Timer` | red-black tree and timer sweep | insert and remove on caller-owned nodes with parent links keep order, colour rules, black height and links, and change the contents by one element; the sweep that removes while iterating fires every due callout once, in order |
| `SplaySpec`, `SplayTree` | top-down splay tree | the loop with two accumulators and a stack node computes the recursive splay, keeps the in-order sequence and ends with the key, or a neighbour of its place, at the root |
| `KconfigExpr`, `KconfigDups`, `KconfigEq`, `KconfigClean`, `KconfigLoss` | tristate expression rewriting | equality test, normalisation and duplicate elimination terminate and preserve the three-valued meaning; for the one pass that does not, exactly when it does; what is left has no duplicate, no pair that could be combined and no contradicted operand |
| `IdBitmap` | reference-counted ID bitmap | one reference per ID in use; the map is released exactly once, at the last put, with all words zero |
| `Mutex` | mutex over sync objects | mutual exclusion, no lost wake-up and wake-up in the order of waiting, in every interleaving of any number of threads; for which kinds of wait a queued block can outlive its stack frame |
| `Events`, `EventDelivery` | asynchronous events | pending bits agree with the queues; every event is delivered exactly once and, in each queue and number, in the order of sending, except KILL |
| `PagedCopy` | copy between address spaces | the page-chunked copy is the byte copy, up to the first unmapped byte |
| `ConfString`, `ConfFile` | string values in `.config` | a written list of settings is read back as that list exactly when every value has no newline and fits the line buffer |

Each imperative file of the repository is modelled by classes and loops: `Pool` has the frame
array, the per-order queues and the counters; `Head` and `SplayHead` link and unlink node
objects; `IdMap`, `Process` and `Caches` update their fields. The proofs about them live in pure
modules (`BuddySpec`, `RbSpec`, `SplaySpec`, `Slab`) that speak about values of those fields. The
expression rewriter is modelled by functions on trees; the pass that is called with both operand
pointers aimed at the same tree is modelled by two paths into one tree. The mutex is a state
machine with one action per access to shared state. `Common` holds what several models share.

Where the code does less than it seems to promise, the model keeps the code and the proofs say
exactly when the promise holds:

- `expr_eliminate_dups` turns some values `m` into `n` or `y` (`MIsLost`); dropping an operand
  keeps the value exactly when the value of the whole is not `m` (`DropExact`), hence the value is
  kept for every two-valued valuation (`EliminateDups`). What is left has no duplicate.
- `calc_page_order` rounds down, so for some sizes no object fits into a slab (`NoObjectFits`);
  `Fits` is the exact condition (`InitLayout`). The gap in front of an object aligns its end
  (`AlignedExactly`): an alignment up to 8 is met exactly by its multiples, 16 exactly by sizes 8
  above a multiple, and 32 or more never by two neighbours; objects of 12 bytes aligned to 8 miss it
  (`SmallAlignment`, `SixteenAlignment`, `LargeAlignment`, `Misaligned`).
- `resize_bitmap` to the same number of words copies nothing; IDs and references are kept exactly
  when the resize fails, changes the number of words or finds no ID in use (`IdMap.Resize`), and
  otherwise an ID can be handed out twice (`HandedOutTwice`). A request for a system ID when all are
  taken grows the map until memory runs out (`SystemRequestGrows`); `IdMap.GetId` says exactly when a
  request succeeds. A specified ID beyond one growth step is looked up outside the map
  (`IdMap.GetSpecifiedId`, `BeyondTheMap`).
- `ev_mask_set` skips KILL also for the pending mask, so a queued KILL event is never dequeued
  (`DueExactly`, `KillNeverArrives`).
- `finish_wait` unlinks the block of a thread only when an event is pending, so KILL, or an event
  that another thread takes, can leave the block of an interruptible wait queued after the thread
  has left (`KillLeavesBlock`). A run has no such block exactly when no thread leaves the wait
  queued with nothing pending (`RunExact`), and no run has one exactly when events do not end the
  wait (`KindExact`), as for a mutex.
- The assertions of `mutex_unlock` hold exactly when the caller owns the mutex (`UnlockExact`).
- The owner of a mutex without the recursive flag that locks it again never returns
  (`StuckForever`, `RelockIsStuck`).
- `tim_wait` asserts that its insertion succeeds, which fails exactly when a queued callout has the
  same expiry (`QueueCallout`, `SameTick`).
- `inter_user_copy` copies right exactly when no page of either range has to be supplied; a page it
  supplies is not the one it then copies through, and for a region without access rights it returns
  0 (`InterUserCopy`, `NoAccessGivesZero`, `NoRegionGivesError`, `SuppliedGivesStale`).
- A string value with a newline, or one too long for the line buffer, is not read back (`ReadBack`,
  `RoundTrip`); the rest of its line is read as lines of its own and can set other symbols
  (`RemainderSets`).

## Model

| member | source | states |
|---|---|---|
| BuddySpec.BuddyIsHead | page/page-buddy.c:137-182 | the buddy index of a block of order k, when inside the array, is itself the head of a block of order at most k: the cheap merge test never reads a stale field |
| BuddySpec.BuddyInside | page/page-buddy.c:157-165 | when the last frame of the region is reserved, as the pages of the frame array are, the buddy index of a free block lies inside the array, so the bound that counts from page 0 is as good as the array length |
| BuddySpec.Merge | page/page-buddy.c:184-197 | joining the block in hand with a free buddy of equal order keeps partition, queues and the set of free pages, one order up |
| BuddySpec.Settle | page/page-buddy.c:137-219 | wherever the coalescing loop stops, queueing the block in hand leaves no two free buddies of equal order below the top order |
| BuddySpec.Split | page/page-buddy.c:48-72 | halving the block in hand and queueing one half keeps partition, queues, maximality and the set of free pages |
| BuddySpec.FreeRunCovered | page/page-buddy.c:137-197 | in a maximal pool an aligned run of free pages lies inside one free block |
| BuddySpec.FreeBlocksCanonical | page/page-buddy.c:137-197 | two maximal pools with the same free pages have the same free blocks |
| BuddySpec.QueuesCanonical | page/page-buddy.c:137-197 | ... and the same queue contents and counts |
| BuddySpec.CountQueue | page/page-buddy.c:286-297 | the pages of the free blocks of one order number free_nr times 2^order |
| Buddy.Pool.constructor | page/page.c:121-183 | after registration, with the bound the code passes, the free pages are exactly the frames below the frame array that are not reserved, in a valid maximal pool |
| Buddy.Pool.GetFree | page/page-buddy.c:286-297 | the sum over the orders is the number of free pages |
| Buddy.Pool.Enqueue | page/page-buddy.c:89-219 | for a block in use or one that has just stopped being reserved: the pool stays valid, exactly the pages of the block become free, and every other block in use keeps its state and order; the buddies it merges with leave their queues and the joined block goes to the tail of its own, and no other queue entry moves; a page of the frame array is left alone |
| Buddy.Pool.Coalesce | page/page-buddy.c:137-197 | merging the block in hand with its buddies keeps the set of free pages and ends in a maximal pool; exactly the buddies leave their queues; no index leaves the array |
| Buddy.Pool.ReleaseReservation | page/page.c:191-213 | an unknown page and one that is not reserved are refused without change; otherwise exactly the pages of the block become free |
| Buddy.Pool.RemoveFromQueue | page/page-buddy.c:36-83 | splitting down to the requested order frees nothing and loses nothing; at each order the upper half is kept and the lower half goes to the tail of its queue |
| Buddy.Pool.Dequeue | page/page-buddy.c:229-280 | on success an aligned block of free pages of exactly the requested order leaves the free set: it is cut from the first block of the least order that has one, so that nothing is split while a smaller block would do, and an exact fit touches nothing else; "no memory" only when no aligned run of 2^order pages is free; errors change nothing |
| Buddy.AllocateAndRelease | page/page-buddy.c:89-280 | allocating and releasing a block restores the contents of every queue, every count and the free set |
| Buddy.NoBlockNoRun | page/page-buddy.c:242-279 | with every queue from the order up empty there is no aligned free run of that order |
| Regions.AllocPages | page/page.c:374-417 | the first region that can serve the request does, with an aligned run, and no other changes; there is no memory only when no region has an aligned free run |
| SlabLayout.CalcPageOrder | page/page-kmcache.c:116-141 | the highest set bit of the page count among the known orders |
| SlabLayout.SlabOrder | page/page-kmcache.c:407-411 | for a slab size, a power of two of pages, that order is exact, so the slab gets all its pages |
| SlabLayout.CalcOffSlabOrder | page/page-kmcache.c:295-330 | the first order from the minimal one up with the least waste of all |
| SlabLayout.InitLayout | page/page-kmcache.c:335-348 | the slab parameters; at least one object per slab if and only if the rounded-down order suffices or a larger order wastes less than that whole slab; the order of an off-slab layout is the first of least waste |
| SlabLayout.Shares | page/page-kmcache.c:223-244 | objects per slab and number of colours; at least one object exactly when header and one object fit |
| SlabLayout.LayoutSound | page/page-kmcache.c:249-265 | for every colour index, header and objects lie inside the slab and no two objects touch |
| SlabLayout.NoObjectFits | page/page-kmcache.c:308-330 | size 8176 with alignment 8 leaves no room for any object |
| SlabLayout.AlignedExactly | page/page-kmcache.c:566-574 | for every alignment that divides a page: the residue of an object's address, from colour, both headers, index and gap |
| SlabLayout.SmallAlignment | page/page-kmcache.c:566-574 | an alignment that divides 8 is met if and only if the object size is a multiple of it |
| SlabLayout.SixteenAlignment | page/page-kmcache.c:566-574 | an alignment to 16 is met if and only if the object size is 8 above a multiple of it |
| SlabLayout.LargeAlignment | page/page-kmcache.c:566-574 | with an alignment to a multiple of 32, the neighbour of an aligned object lies 16 bytes off |
| SlabLayout.Misaligned | page/page-kmcache.c:566-574 | objects of 12 bytes with alignment 8 all lie 4 bytes off |
| Slab.WithSlabOk | page/page-kmcache.c:421-429 | a new slab enters the free queue; the bookkeeping holds and no object becomes live |
| Slab.TakenOk | page/page-kmcache.c:461-492 | taking an object keeps every slab on the queue that its count demands and makes exactly one object live that was not |
| Slab.ReturnedOk | page/page-kmcache.c:524-538 | returning a live object keeps the bookkeeping and ends exactly that object |
| Slab.WithoutSlabOk | page/page-kmcache.c:774-799 | a slab on the free queue holds no live object, and removing it keeps the bookkeeping |
| Slab.BlocksApart | page/page-buddy.c:229-280 | two blocks in use share no page and lie inside the pool |
| Slab.LiveDisjoint | page/page-kmcache.c:355-367 | two live objects of any two caches occupy disjoint bytes |
| Slab.ApartFromHeaders | page/page-kmcache.c:355-367 | no byte of an object lies in the header of any slab or of any object, of any cache |
| Slab.LiveNotFree | page/page-kmcache.c:580-589 | no byte of a live object lies on a free page, and the page of each byte leads back to the object's slab |
| SlabCache.Caches.Init | page/page-kmcache.c:677-732 | a name in use is refused without change; otherwise a cache is added without slabs and others are untouched, and it can hold objects if and only if one fits |
| SlabCache.Caches.Grow | page/page-kmcache.c:397-443 | a block that was no cache's slab becomes a slab of this one, its pages leave the free set; failure means no aligned free run and changes nothing |
| SlabCache.Caches.Alloc | page/page-kmcache.c:450-503 | exactly one object becomes live, at the returned address, in a partly used slab whenever there is one, and the pool and the set of slabs stay as they are whenever some slab has room; NULL only when every slab is full and the pool has no run, and then nothing changed; the assertion fails only for a cache of which no object fits |
| SlabCache.Caches.Free | page/page-kmcache.c:509-542 | from the address alone the right slab and object are found, and exactly that object ends; its slab moves to the queue its count now demands and nothing else moves |
| SlabCache.Caches.Reap | page/page-kmcache.c:757-807 | no live object is lost; the slabs removed are the first of the free queue and exactly their pages return to the pool; all of them when forced, and otherwise no more than the limit asks for; busy exactly when no slab was free |
| SlabCache.GrowPlaced | page/page-kmcache.c:411-437 | growing one cache leaves every slab of every cache on its own block with its back pointers |
| SlabCache.ReapPlaced | page/page-kmcache.c:787-798 | reaping one slab does the same for all others |
| SlabCache.Found | page/page-kmcache.c:519-522 | the page of an object's address leads to its slab, and the header address to its index |
| SlabCache.ColorsCycle | page/page-kmcache.c:249-265 | each slab gets the colour after the previous one, back to the first after the last |
| SlabCache.ColorsDiffer | page/page-kmcache.c:249-265 | fewer slabs in a row than there are colours have different colours |
| SlabCache.AllLiveDisjoint | page/page-kmcache.c:450-542 | in every state the operations can reach, two live objects share no byte |
| SlabCache.AllHeadersApart | page/page-kmcache.c:450-542 | ... and no byte of a live object lies in a slab header or an object header |
| RbTree.Head.constructor | include/kern/rbtree.h:38-40 | the empty tree is valid |
| RbTree.Head.Rotate | include/kern/rbtree.h:74-112 | either rotation relinks the nodes as intended, from any position, and keeps the in-order sequence |
| RbTree.Head.InsertColor | include/kern/rbtree.h:138-181 | from a red node whose only fault may be a red parent the loop ends with a red-black tree with the same in-order sequence |
| RbTree.Head.InsertRound | include/kern/rbtree.h:142-177 | one round keeps the fault to one place, strictly nearer the root |
| RbTree.Head.RemoveColor | include/kern/rbtree.h:183-259 | from a position short of one black node the loop ends with a red-black tree with the same in-order sequence |
| RbTree.Head.RemoveRound | include/kern/rbtree.h:187-254 | one round settles the tree or moves the shortage up |
| RbTree.Head.Remove | include/kern/rbtree.h:261-326 | the tree stays valid, loses exactly the given node, and every other node keeps its place in the order: nodes are relinked, not copied |
| RbTree.Head.Insert | include/kern/rbtree.h:328-357 | the tree stays valid and gains exactly the node, or a node with the equal key, possibly the same one, is returned and nothing changes |
| RbTree.Head.Find | include/kern/rbtree.h:359-375 | the node with the key, or null exactly when there is none |
| RbTree.Head.NFind | include/kern/rbtree.h:377-396 | the node with the least key not below the given one |
| RbTree.Head.Next | include/kern/rbtree.h:398-418 | the in-order successor |
| RbTree.Head.Min | include/kern/rbtree.h:442-455 | the first node in order |
| RbSpec.HeightBound | include/kern/splay.h:45-53 | the height of a red-black tree of n nodes is at most 2 lg(n+1) |
| Timer.InvokeCallout | tim/timer.c:198-220 | the fired callouts followed by the remaining tree are the old queue: each due callout fires once, in ascending order, and exactly the others stay |
| Timer.Visit | tim/timer.c:198-220 | saving the successor before unlinking leaves it valid, whether or not the node was due |
| Timer.DuePrefix | tim/timer.c:198-220 | in an ordered queue the due callouts are a prefix |
| Timer.QueueCallout | tim/timer.c:247-250 | the assertion after the insertion holds if and only if no queued callout has the same expiry; then the queue gains exactly the callout |
| Timer.SameTick | tim/timer.c:247-250 | two waits until the same tick: the second one fails the assertion |
| SplaySpec.RotateParts | include/kern/splay.h:84-94 | either rotation keeps tree and both accumulators well linked |
| SplaySpec.LinkParts | include/kern/splay.h:96-106 | either link step moves the root and its far subtree onto the accumulator on that side |
| SplaySpec.AssembleParts | include/kern/splay.h:108-113 | the four assignments join tree and accumulators into one well linked tree, also when an accumulator is still the stack node |
| SplayTree.SplayHead.Splay | include/kern/splay.h:205-238 | the tree is the one the recursive splay gives, with every zig-zig rotation; the in-order sequence is unchanged, everything left of the new root is below the key and everything right of it above |
| SplaySpec.PivotFinds | include/kern/splay.h:205-238 | so the root has the key exactly when some node has |
| SplayTree.SplayHead.Round | include/kern/splay.h:214-236 | one round keeps the sequence, puts what it collects on the right side of the key, shrinks the tree or stops, and leaves the recursive splay of the parts the same |
| SplaySpec.SplayedLink | include/kern/splay.h:214-236 | going twice to the same side rotates before the root is collected, and then the recursive splay goes on below |
| SplayTree.SplayHead.Find | include/kern/splay.h:124-133 | the node with the key at the root, or null exactly when there is none; the tree is splayed and its sequence unchanged |
| SplayTree.SplayHead.Insert | include/kern/splay.h:160-182 | the node becomes the root, above the pivot of the splayed tree and its subtree on the far side; the sequence gains exactly the node at one place and stays ordered, or a node with the equal key, possibly the same one, is returned |
| SplayTree.SplayHead.Remove | include/kern/splay.h:184-203 | the sequence loses exactly the node with the key, the splayed left subtree taking the right one below its maximum, or nothing changes when there is none |
| KconfigExpr.EliminateYnValue | tools/kconfig/expr.c:236-317 | removing constants keeps the tristate value under every valuation |
| KconfigExpr.EliminateYnFree | tools/kconfig/expr.c:236-317 | afterwards no operand of a conjunction or disjunction is y or n |
| KconfigExpr.EliminateYnExact | tools/kconfig/expr.c:236-317 | an expression is left as it is exactly when it has no such operand |
| KconfigExpr.ExprEqSound | tools/kconfig/expr.c:194-234 | expressions found equal have the same value under every valuation |
| KconfigEq.ExprEqRefl | tools/kconfig/expr.c:194-234 | every expression compares equal to itself, constants among its operands or not |
| KconfigEq.EqualTakenOut | tools/kconfig/expr.c:168-189 | of two equal expressions every operand is taken out, and the same constant is left on both sides |
| KconfigEq.SameOperandsEqual | tools/kconfig/expr.c:135-234 | expressions of one operator with the same operands, none of them twice, compare equal whatever their order and nesting |
| KconfigExpr.ElimPairsSound | tools/kconfig/expr.c:135-192 | what pairwise elimination takes from both operands has the same value, so equal remainders mean equal wholes |
| KconfigExpr.ExtractEqSound | tools/kconfig/expr.c:853-880 | both operands are their remainder joined with one common part, and the extracted expression gains that part |
| KconfigExpr.DeMorganLighter | tools/kconfig/expr.c:721-738 | a De Morgan step lowers the weight although it enlarges the tree: normalisation terminates |
| KconfigExpr.TransformValue | tools/kconfig/expr.c:641-776 | normalisation keeps the value under every valuation |
| KconfigExpr.TransformNormal | tools/kconfig/expr.c:641-776 | afterwards a negation stands only directly above a symbol other than the constants y, m and n, and no boolean symbol is compared with one of these |
| KconfigExpr.TransformExact | tools/kconfig/expr.c:641-776 | normalisation leaves an expression unchanged exactly when it is in normal form already |
| KconfigDups.JoinOrValue | tools/kconfig/expr.c:351-413 | a joined pair has the value of the disjunction |
| KconfigDups.JoinAndValue | tools/kconfig/expr.c:415-507 | a joined pair has the value of the conjunction |
| KconfigClean.JoinExact | tools/kconfig/expr.c:351-507 | two operands are combined exactly when they compare equal or are one of the pairs of the tables, such as a = y and a = m, or a and a != n |
| KconfigDups.Dups1Value | tools/kconfig/expr.c:509-559 | the pass over one tree through two aliased pointers keeps the value under every three-valued valuation |
| KconfigClean.Dups1Clean | tools/kconfig/expr.c:509-559 | a first pass that rewrites nothing has compared every operand with every other, at every level: no two are identical, compare equal or are such a pair |
| KconfigDups.ContradictsSound | tools/kconfig/expr.c:561-615 | an operand that is dropped is bounded by the negation it was compared with |
| KconfigDups.DropExact | tools/kconfig/expr.c:561-615 | dropping it keeps the value of the whole if and only if that value is not m |
| KconfigDups.Dups2Value | tools/kconfig/expr.c:561-615 | the whole pass keeps every value other than m |
| KconfigClean.ContradictsComplete | tools/kconfig/expr.c:561-615 | an operand in normal form is found to be contradicted whenever the negation of each of its own operands is an operand beside it |
| KconfigClean.TransformNeg | tools/kconfig/expr.c:641-776 | normalising a negated normal form gives its De Morgan dual |
| KconfigClean.Dups2Clean | tools/kconfig/expr.c:561-615 | a second pass that rewrites nothing has tested every operand of the other operator against the whole, at every level |
| KconfigDups.Dups1Progress | tools/kconfig/expr.c:509-559 | a productive pass followed by the removal of constants shrinks the tree |
| KconfigDups.Dups2Progress | tools/kconfig/expr.c:561-615 | the same for the second pass |
| KconfigClean.EliminateDups | tools/kconfig/expr.c:617-639 | the fixpoint loop terminates; at every level no two operands of the result are identical, compare equal or could be combined, and from a normal form the result is one in which no operand has all its negated operands beside it; every value other than m is kept, and the value under every two-valued valuation |
| KconfigLoss.MIsLost | tools/kconfig/expr.c:617-639 | with FOO = m, (FOO or BAR) and not FOO and not BAR is m, and what the loop makes of it is n |
| KconfigLoss.SecondPass | tools/kconfig/expr.c:561-615 | the second pass drops FOO or BAR from that expression, because the whole contains both negations |
| KconfigLoss.FooIsMCoherent | tools/kconfig/expr.c:943-982 | that valuation meets every assumption about symbols |
| IdBitmap.IdMap.constructor | kern/id-bitmap.c:49-61 | a new map is valid with no ID in use |
| IdBitmap.IdMap.ResizeBitmap | kern/id-bitmap.c:70-143 | the result in every case, and the IDs kept: all of them, or none when the number of words is the same |
| IdBitmap.IdMap.FindFreeId | kern/id-bitmap.c:152-207 | the lowest free ID of the range is taken; none exactly when the map is too small or the range is full |
| IdBitmap.IdMap.FreeMap | kern/id-bitmap.c:215-252 | the words are released exactly when no ID is in use, otherwise nothing changes |
| IdBitmap.IdMap.PutRef | kern/id-bitmap.c:285-307 | the map is released exactly at the last reference of a destroyed map, and then every word is zero |
| IdBitmap.IdMap.GetRef | kern/refcount.c:42-70 | a reference is given exactly when the map is not destroyed |
| IdBitmap.IdMap.GetSpecifiedId | kern/id-bitmap.c:319-369 | the result in every case, including the IDs beyond one growth step that are looked up outside the map; the ID is taken exactly when it was free and not 0, and a failure leaves count and IDs unchanged |
| IdBitmap.BeyondTheMap | kern/id-bitmap.c:339-351 | ID 2000 asked of an empty map is looked up outside the map |
| IdBitmap.IdMap.GetId | kern/id-bitmap.c:379-411 | a free ID of the kind is handed out if and only if the map is not destroyed and one is free now, or is free or new after the one growth step that memory and the reserved bound allow; success takes at most one growth; a failure leaves the IDs unchanged and says why |
| IdBitmap.SystemRequestGrows | kern/id-bitmap.c:389-402 | with no system ID to give, a request grows the map four times, as far as memory allows, and fails |
| IdBitmap.IdMap.PutId | kern/id-bitmap.c:417-440 | exactly the ID is returned; the map goes with the last ID of a destroyed map and never before |
| IdBitmap.IdMap.Resize | kern/id-bitmap.c:450-463 | the result from the arguments and the IDs in use; references and IDs still agree if and only if the call is refused, the number of words changes, or no ID is in use, and otherwise every ID is forgotten |
| IdBitmap.HandedOutTwice | kern/id-bitmap.c:101-131 | ID 255 is handed out, forgotten by a resize from 1024 to 1000 IDs, and handed out again |
| IdBitmap.IdMap.Free | kern/id-bitmap.c:484-507 | an unused map is emptied; otherwise nothing changes |
| IdBitmap.IdMap.Destroy | kern/id-bitmap.c:512-523 | the map is released at once exactly when no ID is in use |
| Mutex.Safety | kern/mutex.c:62-125 | in every run of a mutex, and in every run of interruptible waits without KILL or stolen events: at most one thread holds the mutex, a thread holds it exactly when it is the owner, an assertion fails only for a caller of unlock that holds nothing, while mutex and spinlock are free no thread sleeps, and every queued block belongs to a thread inside the wait |
| Mutex.UnlockExact | kern/mutex.c:113-114 | the assertions of unlock hold if and only if the caller owns the mutex; no other step fails |
| Mutex.HeldStays | kern/mutex.c:105-114 | between the call of unlock and its assertions what the caller holds does not change, whatever the others do |
| Mutex.RunInv | thr/thread-sync.c:33-214 | the invariant of the protocol, kept by every action of every thread under the same condition |
| Mutex.RunExact | thr/thread-sync.c:60-79 | for any run and any kind of wait: every queued block always belongs to a thread inside the wait if and only if no thread leaves finish_wait queued with nothing pending |
| Mutex.KindExact | kern/mutex.c:35-35 | over all runs: that holds if and only if the wait is of the kind that events do not end, which mutex_init chooses |
| Mutex.KillLeavesBlock | event/async-event.c:116-125 | a run in which KILL ends an interruptible wait and the block stays queued |
| Mutex.WakeAll | thr/thread-sync.c:177-214 | the last unlock makes every waiter runnable before it lets go of the spinlock |
| Mutex.WokenInOrder | thr/thread-sync.c:192-208 | in every run of a mutex the threads woken, followed by those still queued, are the threads that went to sleep, in that order |
| Mutex.CounterExact | kern/mutex.c:71-121 | in every run the counter is the number of lock calls of the owner that returned less its unlocks, and for every other thread that number is zero |
| Mutex.Acquires | kern/mutex.c:71-77 | when mutex and spinlock are free, every thread inside the lock call gets the mutex by running on |
| Mutex.Reenters | kern/mutex.c:81-85 | the owner of a recursive mutex re-enters without waiting |
| Mutex.StuckForever | kern/mutex.c:79-92 | the owner of another mutex that locks it again never returns, whatever the others do |
| Mutex.RelockIsStuck | kern/mutex.c:79-92 | a run that reaches such a state: one thread locks a free mutex twice |
| Events.MaskSet | event/event-mask.c:189-199 | sets the bit of the number and no other, except for KILL |
| Events.MaskUnset | event/event-mask.c:205-212 | clears the bit of the number and no other |
| Events.FindFirstBit | event/event-mask.c:220-240 | the lowest bit that is set |
| Events.DeliverMask | event/async-event.c:351-352 | the two mask operations leave exactly the pending numbers that are not masked |
| Events.SentOk | event/async-event.c:116-117 | queueing an event keeps bits and queues in agreement and adds exactly that event, at the tail of the queue of its number |
| Events.FifoPut | event/async-event.c:116-117 | appending to one queue keeps the law that what was taken followed by what is queued is what was sent |
| Events.FifoTake | event/async-event.c:357-361 | taking the head of one queue keeps it |
| Events.DequeueFrom | event/async-event.c:334-369 | the next event in ascending order of number and first-in-first-out within a number, or none exactly when nothing is deliverable; the queue it reads is never empty |
| Events.DueExactly | event/async-event.c:351-359 | a queued event is deliverable under a mask if and only if its number is neither masked nor KILL |
| EventDelivery.Process.SendThread | event/async-event.c:88-138 | the event joins the tail of the queue of its number in the thread and ends its wait when unmasked and the wait can be ended, or it is refused for a missing or kernel thread; for each queue and number, what was taken followed by what is queued is what was sent |
| EventDelivery.Process.SendProcess | event/async-event.c:189-221 | the event joins the tail of the queue of its number in the process and ends the waits of exactly the threads that do not mask it and can be woken; for each queue and number, what was taken followed by what is queued is what was sent |
| EventDelivery.Process.Dequeue | event/async-event.c:376-400 | the first of the upcoming events is delivered, those of the process before the thread's own, never a KILL event; sent events remain delivered, dropped or pending, each once, and each queue gives them out in the order of sending |
| EventDelivery.Process.Drain | README.ja:124-125 | taking events until there are none delivers exactly the upcoming events, each once and in order |
| EventDelivery.TwoInOrder | event/async-event.c:117-200 | two events of one number sent to a thread are handed out in that order |
| EventDelivery.Process.Exit | event/async-event.c:225-264 | the queues and bits of the thread end empty; the process queue of each number gains, in order, exactly the events that are not thread-specific, or none for the master thread; exactly the threads that one of those reaches are woken |
| EventDelivery.KillNeverArrives | event/async-event.c:116-125 | KILL sent to a killable wait ends the wait, stays queued, and draining hands out nothing |
| PagedCopy.InterUserCopy | vm/vm-copy-inout.c:85-220 | every byte before the first unmapped one is copied and nothing else changes; the full count is returned if and only if both ranges are mapped; otherwise, for the side that is looked at first, the result is an error if and only if the address has no region or no frame, 0 if and only if it has no access rights, and going on through the address of another page if and only if a page is supplied |
| PagedCopy.NoAccessGivesZero | vm/vm-copy-inout.c:177-182 | a destination region without access rights: nothing is copied and the result is 0 |
| PagedCopy.NoRegionGivesError | vm/vm-copy-inout.c:144-146 | a source address in no region: nothing is copied and the result is an error |
| PagedCopy.SuppliedGivesStale | vm/vm-copy-inout.c:184-197 | a destination page that has to be supplied: the copy goes on through another address |
| PagedCopy.CopyChunk | vm/vm-copy-inout.c:202-217 | a chunk stays on one page on both sides and copies byte by byte |
| ConfString.WriteString | tools/kconfig/confdata.c:493-507 | the chunked writer prints the string with a backslash before every quote and backslash |
| ConfString.Unescape | tools/kconfig/confdata.c:117-130 | the in-place reader returns the text up to the first unescaped quote, or refuses a text without one |
| ConfString.ParseEsc | tools/kconfig/confdata.c:117-130 | round trip: reading an escaped string, whatever follows the quote, gives the string |
| ConfString.ParseExact | tools/kconfig/confdata.c:117-130 | a text is read as a value exactly when it starts with a spelling of the value, any character of which may stand after a backslash and quote and backslash must, and a closing quote |
| ConfString.ParseCut | tools/kconfig/confdata.c:120-130 | an escaped string cut anywhere before its closing quote is refused |
| ConfString.ReadBack | tools/kconfig/confdata.c:210-276 | the first line of a written file gives back name and value if and only if the value has no newline and the line up to the closing quote fits the buffer; otherwise nothing is read |
| ConfFile.RoundTrip | tools/kconfig/confdata.c:210-303 | a written list of settings is read back as that list if and only if every value has no newline and every line fits the buffer |
| ConfFile.Room | tools/kconfig/confdata.c:210-303 | whatever is read from any text fits into that text beside its newlines, so what is lost cannot be made up by what the rest of a line sets |
| ConfFile.RemainderSets | tools/kconfig/confdata.c:97-102 | the part of a value after a newline is read as a line of its own and sets another symbol |

## Left out

- Buddy.Pool.Enqueue: the map count that clears the in-use flag outside the allocator (page/page.c:322-326) is not modelled.
- SlabCache.Caches.Grow: the caches take their slabs from one region.
- Buddy.Pool.constructor: requires, as hal/x86-64/mm/page-pool.c:148-170 lays out memory, that the frame array lies at the end of the region unless the region starts at page 0.
- Timer.InvokeCallout: records the invoked callouts in order. The only callout of the kernel wakes a sync object; the queue cannot change meanwhile, because its lock is held.
- SlabCache.Caches.Init: constructors, destructors and delayed destruction of caches are not modelled.
- PagedCopy.InterUserCopy: ends where the code would go on copying through the address of another page; what it then copies is not modelled.
- Mutex.Safety: destruction of the mutex ends the run; the scheduler is any choice of the next thread.
- KconfigExpr.ExprEqSound: E_LIST and E_RANGE nodes, NULL expressions, `expr_trans_bool`, `expr_trans_compare` and printing; expression trees are not shared, and freeing their nodes is not modelled.
- KconfigDups.Dups2Value: says which values a whole pass keeps, not which occurrences of m it loses; `DropExact` is exact for each single rewrite.
- Queues are sequences; list and queue links are not modelled. Regions under a spinlock are one step outside `Mutex`; backtraces and interrupt flags do not appear.
- The mirror-image halves of the tree macros are one text with a direction, and some `break` statements are flags. RB_PREV, RB_MAX, SPLAY_NEXT and SPLAY_MINMAX would add only mirror images.
- Sizes of C structures (slab header 248 bytes, object header 16 bytes) are those of the 64-bit build; machine integers are unbounded.
- A machine word of a bitmap or event mask is the set of its bit positions.
- Sending a copy of an event to every thread of a process repeats the send of one event; releasing undelivered events at process end frees memory, which is not modelled.
- Hardware abstraction, paging hardware, boot code, thread and process creation, LPC, virtual memory areas, name and VM servers, string library and user land.
