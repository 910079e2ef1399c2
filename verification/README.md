# Kyronix memory, storage and path core, in Dafny

A model of the parts of the Kyronix kernel whose correctness rests on invariants spread over many functions, with
proofs for all inputs, all reachable states and, where the code is concurrent, all interleavings:

- the LLFree physical frame allocator: the bit-trick search in one row, the 512-bit field, the lower allocator
  (sequentially as a class, concurrently as a step machine over any number of agents), the per-tree counters and
  per-core reservations above it, and whole runs of clients taking and giving back blocks;
- address spaces: copy-on-write fork refining eager copying, the accessor/mutator handshake under every interleaving,
  and the fixed-slot table of mapped ranges refining a map;
- ext2: block groups, the direct/single/double/triple block map, writing and freeing files, the 4-way write-back
  metadata cache, and directory records;
- the kernel heap: a tiling chain of blocks, linked size bins and per-CPU caches, and threads allocating and freeing in
  every interleaving;
- the installer's one-block cache and undo log;
- pipes: the ring and the lifetime of its ends;
- path canonicalisation and the jail clamp.

State that the source updates in place is a class whose methods are proved against functions of the old state; shared
state updated by atomic operations is a state machine whose steps are those operations, under sequential consistency.
Integers are unbounded; wrap-around is written out where the code relies on it (word arithmetic uses 64-bit vectors, table
priorities are taken modulo 256, `range_end` wraps at 2^64, name lengths are cut to 8 bits). The kernel is built with
assertions compiled out (mk/kernel.mk:17), so an assertion in the source is not a precondition here. What another part
of the kernel answers (whether there is a frame, room for a page table, memory for the heap, a block for a directory) is
an input of the operation that asks.

## Where the code falls short of its documentation

Each property one might expect below is false of the code as it stands. The model follows the code; one member gives an
input that shows the failure, and another says when the property holds, by an if-and-only-if unless noted.

- `try_update_huge_n` is documented to undo partial changes (kernel/mm/lower.c:111-113), but its undo loop walks
  `base_idx + (j - k)`. `LowerAllocator.TryUpdateHuge` proves that a failure leaves the children unchanged exactly when it
  happens on the first child, and what it leaves otherwise; in `LowerAllocator.HugeUndoMisses` a free and an allocated
  child trade places; `LowerAllocator.TryUpdateHugeIntended` is the documented behaviour with corrected indices.
  `LowerAllocator.Lower.Get` says when a request above order 9 that finds nothing changes nothing.
- The multi-row undo of `field_toggle` compares against the word from before the toggle (kernel/mm/bitfield.c:160-163).
  `Bitfield.FieldToggle` proves that a failed toggle restores the field exactly when its first row was not changed,
  `Bitfield.TornToggle` is a failing input, and `LowerAllocator.Lower.GetAt` and `Put` state precisely when that breaks
  the allocator.
- An order-0 request can report out of memory with free frames left. Frames in the global counter of a reserved tree are
  reached only through the slot that holds the tree, and through it only if they are more than one
  (kernel/mm/tree.c:74-80). `LLFreeAllocator.LLFree.GetAny` gives the exact condition. In
  `LLFreeAllocator.StarvedInPlenty` 4096 of 8192 frames are free: a core took one of two trees as a block of order 12,
  which reserved it, the other tree was taken as well, and a core that does not hold the first tree gave it back.
- `llfree_validate` (kernel/mm/llfree.c:648-681) passes states the allocator cannot be in: `TreeBooks.ValidatesLess` has a
  reserved tree that no slot holds, and one that two slots hold. `TreeBooks.SettledIffValidates` says what is missing.
- A change of protection that runs out of slots has already unmapped what it could not map again
  (kernel/mm/vma.c:250-253). `VmaTable.ProtectUnmaps` is an input, `VmaTable.Table.ProtectPart` the exact condition, and
  `VmaTable.Table.Protect` says exactly when that happens and what is unmapped then.
- A file write that runs out of blocks returns without storing the inode (kernel/fs/ext2.c:731-739), so the blocks it
  took stay marked and belong to no file. `Ext2Inode.LostBlocks` loses two of two free blocks;
  `Ext2Inode.Volume.WriteThenFree` says exactly when writing and freeing puts everything back.
- A direct read of a block can miss what was written to it through the metadata cache: `MetadataCache.StaleDirect`.
  `MetadataCache.Cache.ReadDirect` says exactly when. ext2 itself is safe, because a new block is zeroed directly and only
  pointer blocks are written through the cache afterwards: `Ext2Trace.ThroughCache`.
- Directory names of 256 bytes and more are stored with their length modulo 256 (kernel/fs/ext2.c:789-791), so different
  names can be one name: `Directories.SameKey`. `Directories.KeyUnique` says exactly which names stand for themselves,
  and `Directories.AddUnique` that a directory stays a map exactly when only absent names are added.
- Canonicalising a prefix first is not always harmless: `Paths.PrefixMustFit` is a prefix of 129 names.
  `Paths.CanonOfPrefix` has the condition a caller can check; `Paths.PrefixLaw` adds what is left of the law without it.
- A clamped path cut to a short buffer can lead above the root: `Paths.CutLeaves`. `Paths.CutStaysUnder` says exactly when;
  a root of up to 255 characters in a buffer of 512 bytes (kernel/proc/jail.h:8, kernel/syscall/syscall.c:90) is safe.

## Model

| member | source | states |
|---|---|---|
| Words.TrailingZeros | kernel/mm/bitfield.c:32-55 | the index of the lowest set bit, 64 exactly for zero |
| Words.FreeCandidates | kernel/mm/bitfield.c:32-55 | in each of the five carry and borrow tricks no free aligned block is missed, and false candidates stand only above a true one: the lowest candidate is a free block |
| Words.Search | kernel/mm/bitfield.c:27-83 | the lowest set bit of a candidate word is the lowest free aligned block, and none means there is none |
| Words.FirstZerosAligned | kernel/mm/bitfield.c:27-83 | for every word and order 0-6: finds the lowest aligned block of zero bits, fails exactly when there is none, sets exactly those bits |
| Rows.ClearInSet | kernel/mm/bitfield.c:91-98 | a block of a row's word is clear exactly when the corresponding frames of the field are |
| Rows.FilledInSet | kernel/mm/bitfield.c:91-98 | setting a block of the word adds exactly that block to the field |
| Bitfield.RowFirstZeros | kernel/mm/bitfield.c:91-98 | one atomic row update takes the lowest free block of the row, or shows the row has none; the stored word is the new row |
| Bitfield.FieldSetNext | kernel/mm/bitfield.c:85-129 | takes the first free aligned block in wrap-around order from the start row (slot order for orders 7 and 8), sets exactly it, and fails, changing nothing, exactly when the field has none |
| Bitfield.SetRows | kernel/mm/bitfield.c:103-125 | the multi-row set is all or nothing: its undo restores the field |
| Bitfield.FieldToggle | kernel/mm/bitfield.c:146-175 | flips the block exactly when all its bits have the expected value; a failure leaves the field alone unless the first row was already changed, and then exactly one row is flipped |
| Bitfield.UndoToggle | kernel/mm/bitfield.c:154-165 | the undo as coded leaves exactly the last changed row changed |
| Bitfield.TornToggle | kernel/mm/bitfield.c:154-165 | a field on which a failed toggle does not restore what was there |
| Blocks.OffsettedMod | kernel/mm/utils.h:17-29 | the wrap-around loop's i-th element, whose distance from the start is i, is the source's modular expression |
| LowerAllocator.InitField | kernel/mm/lower.c:31-43 | the first `free` bits are clear and all others set |
| LowerAllocator.Lower.Clear | kernel/mm/lower.c:45-65 | establishes the representation with all frames free, or none |
| LowerAllocator.Lower.Recover | kernel/mm/lower.c:67-78 | rebuilding the counters from bitfields and huge flags establishes the representation and keeps the free set |
| LowerAllocator.Lower.Get | kernel/mm/lower.c:163-208 | for every order up to 12: succeeds exactly when the tree has an aligned free run of the order; if no group of children is partly free from its first child on (always up to order 9), exactly the returned run leaves the free set and the tree's counter moves by its size; above order 9 the groups tried in vain are left as the coded undo leaves them, and a failure changes nothing exactly under that condition |
| LowerAllocator.Lower.GetAt | kernel/mm/lower.c:134-161 | for every order up to 12: succeeds exactly on an in-range, aligned, wholly free block and takes exactly it; a failure changes nothing unless the update stopped half way; the representation survives exactly unless a field was torn |
| LowerAllocator.Lower.Put | kernel/mm/lower.c:228-273 | for every order up to 12: frees exactly the block, splitting a huge child when needed; succeeds exactly on an allocated block (whole huge children from order 9 on); a failure changes nothing unless the update stopped half way, and then what the coded undo leaves |
| LowerAllocator.ScanSame | kernel/mm/lower.c:178-184 | after failed attempts on any number of groups the children are as before exactly when every group began with a child that is not free |
| LowerAllocator.RunIsGroup | kernel/mm/lower.c:172-187 | an aligned run of whole children is free exactly when each of its children is |
| LowerAllocator.TreeSwapped | kernel/mm/lower.c:114-132 | replacing a group of children moves the counter sum of its tree and of no other |
| LowerAllocator.Lower.Split | kernel/mm/lower.c:210-226 | splitting a huge child changes the representation and not the free set |
| LowerAllocator.TakeBlock | kernel/mm/lower.c:189-204 | taking clear bits with the counter decrement keeps the representation and removes exactly that block from the free set |
| LowerAllocator.ReturnBlock | kernel/mm/lower.c:253-272 | clearing set bits with the counter increment keeps the representation, cannot overflow the counter, and adds exactly that block |
| LowerAllocator.TryUpdateHuge | kernel/mm/lower.c:114-132 | succeeds exactly when all children are as expected; a failure leaves them unchanged exactly when the first child was not as expected; otherwise the first child stays changed and the one it failed on turns from the desired value to the expected one |
| LowerAllocator.HugeUndoMisses | kernel/mm/lower.c:120-126 | a free and an allocated child asked for together trade places |
| LowerAllocator.TryUpdateHugeIntended | kernel/mm/lower.c:111-132 | the documented all-or-nothing update, for corrected indices |
| ConcurrentLower.StepKeeps | kernel/mm/lower.c:134-273 | every atomic step of every agent keeps counters, bits and ownership in balance |
| ConcurrentLower.Safety | kernel/mm/lower.c:134-273 | in every interleaving from rest of any number of gets, exact gets of orders 0-6 and 9, and matching puts, of orders 0-9: the "Undo failed" and "Inc Failed" branches are unreachable, no frame is handed out twice, and a handed-out frame is marked taken |
| ConcurrentLower.CountersLag | kernel/mm/child.c:3-18 | in every interleaving, a non-huge child's counter plus the pending credits equals its zero bits |
| ConcurrentLower.Restored | kernel/mm/bitfield.c:85-175 | when all agents are idle again the allocator is exactly as it was, whatever races and undos happened |
| ConcurrentLower.FirstFreeExact | kernel/mm/bitfield.c:91-98 | the search of one row finds its lowest aligned free block, and nothing exactly when it has none |
| ConcurrentSearch.GiveUp | kernel/mm/bitfield.c:85-129 | in every interleaving, a get gives up only after it has seen, for every aligned block of the child, a moment of this very search at which someone else had a bit of it |
| ConcurrentSearch.Alone | kernel/mm/lower.c:189-204 | from every reachable state, a get whose counter is taken down while the others pause ends, with the first free block in the order of the sequential search, or without one exactly when the child has none; a get the counter refuses changes nothing |
| ConcurrentSearch.CounterExact | kernel/mm/child.c:12-18 | when no other agent is between its counter and its bits, the counter refuses no get for which the child has a block |
| ConcurrentSearch.GaveUpClean | kernel/mm/lower.c:198-202 | a get that found nothing and takes the counter up again leaves no trace |
| ConcurrentSearch.ExactGet | kernel/mm/lower.c:134-161 | in every interleaving, an exact get hands out the block asked for, exactly when that block is free at its step |
| ConcurrentSearch.HugeGet | kernel/mm/lower.c:172-187 | in every interleaving, a whole child is handed out exactly when no frame of it is in use, as a block or as a pending credit |
| ConcurrentSearch.HugePut | kernel/mm/lower.c:228-273 | in every interleaving, giving a whole child back leaves it wholly free |
| ConcurrentSearch.SoloFree | kernel/mm/lower.c:228-273 | from every reachable state, a free while the others pause ends with exactly its block clear and the counter up by its size |
| TreeBooks.SettledIffValidates | kernel/mm/llfree.c:648-681 | the ledger invariant kept by every operation holds exactly when all checks of `llfree_validate` pass, the grand total included, and every reserved tree is held by one slot |
| TreeBooks.ValidatesLess | kernel/mm/llfree.c:648-681 | two states that pass validation and break the ledger: a reserved tree without a holder, and one with two |
| TreeBooks.TreeChange | kernel/mm/tree.c:6-80 | a change of one tree entry that balances against the ledger keeps the books of every tree |
| TreeBooks.SlotChange | kernel/mm/local.c:30-73 | a change of one local slot that balances against the ledger keeps the books of every tree |
| TreeBooks.ZigzagBijection | kernel/mm/trees.c:69-86 | the zigzag scan visits every tree exactly once, in both directions of the bijection |
| LLFreeAllocator.LLFree.constructor | kernel/mm/llfree.c:55-88 | initialisation over a consistent lower allocator establishes the books: no slot reserved, every tree counting its children's frames |
| LLFreeAllocator.LLFree.SwapReserved | kernel/mm/llfree.c:157-167 | putting a reserved tree into a slot returns the frames of the tree that was there to its counter |
| LLFreeAllocator.LLFree.ReserveOrSteal | kernel/mm/llfree.c:172-213 | reserve or steal, allocate, and roll back on failure keep the books; with a permissive policy, an unreserved tree whose counter admits the request is refused exactly when it has no aligned block of the order, and a failure changes no other tree |
| LLFreeAllocator.LLFree.SearchBest | kernel/mm/trees.c:88-137 | the scan and its top-8 table: an order-0 request fails only if none of the visited trees is usable, and then changes nothing; for any order, an unreserved tree with a block of the order does not survive a failed search that visits it, if it rates perfect or the table has room for all visited trees |
| LLFreeAllocator.LLFree.SearchAndReserve | kernel/mm/llfree.c:239-274 | an order-0 request fails exactly when no tree is usable; for any order, an unreserved tree with a block of the order that rates perfect makes it succeed, and so does any such tree when there are at most eight trees |
| LLFreeAllocator.LLFree.SyncWithGlobal | kernel/mm/llfree.c:277-297 | succeeds exactly when the slot lacks frames and the tree's counter has more than the rest; moves the whole counter and keeps the books |
| LLFreeAllocator.LLFree.GetLocal | kernel/mm/llfree.c:302-332 | keeps the books through take, allocate, sync and rollback; for any order, succeeds exactly when the slot, after synchronisation, has the frames and its tree has a block of the order; a failure changes no unreserved tree |
| LLFreeAllocator.LLFree.StealLocal | kernel/mm/llfree.c:335-354 | keeps the books; an order-0 request fails exactly when every class it may steal from is dry |
| LLFreeAllocator.LLFree.FindSteal | kernel/mm/local.c:207-228 | finds a slot of a class the policy lets the request match or steal from, none exactly when those classes are dry |
| LLFreeAllocator.LLFree.DemoteLocal | kernel/mm/llfree.c:357-383 | keeps the books while a tree changes class and slot; an order-0 request fails exactly when every class it may demote is dry |
| LLFreeAllocator.LLFree.FindDemote | kernel/mm/local.c:232-270 | finds a slot of another class the policy lets the request demote, none exactly when those classes are dry |
| LLFreeAllocator.LLFree.MoveSlot | kernel/mm/local.c:232-288 | the demoted tree moves to the requesting slot, or is unreserved, with the frames in hand accounted for |
| LLFreeAllocator.LLFree.GetExact | kernel/mm/llfree.c:385-411 | an exact request keeps the books and takes exactly the block, or changes nothing below; under the simple policy an order-0 one succeeds exactly when the frame is free |
| LLFreeAllocator.LLFree.GetAny | kernel/mm/llfree.c:456-506 | keeps the books; under the simple policy with slots for both classes: an order-0 request reports out of memory if and only if no unreserved tree and no slot has a frame and its own tree cannot be synchronised; a request of any order that uses its slot is granted if an unreserved tree of its class has a block of the order, or an unreserved tree of a higher class is wholly free, or the slot can give the frames and its tree has a block; one that does not, if such a tree of its class is between a 64th and half free; and either, with at most eight trees, if any unreserved tree has a block |
| LLFreeAllocator.LLFree.WholeTreeServes | kernel/mm/llfree.c:127-141 | a wholly free unreserved tree of the request's class or a higher one is enough for a request of any order to be granted |
| LLFreeAllocator.StarvedInPlenty | kernel/mm/llfree.c:456-506 | with half of 8192 frames free, every order-0 request of the small class is refused |
| LLFreeAllocator.LLFree.Get | kernel/mm/llfree.c:456-506 | for every order: rejects exactly the malformed requests; takes exactly the returned aligned free block; a failure leaves the lower allocator unchanged; under the simple policy requests are granted as `GetAny` and `GetExact` say |
| LLFreeAllocator.LLFree.Put | kernel/mm/llfree.c:508-531 | for every order: gives back exactly the block and keeps the books; succeeds exactly for a valid request on an allocated block (whole huge children from order 9 on); changes nothing otherwise, except below for a free that stops half way |
| LLFreeAllocator.LLFree.Drain | kernel/mm/llfree.c:545-556 | keeps the books and leaves no slot of a configured class reserved |
| AllocatorRuns.Step | kernel/mm/llfree.c:456-556 | one get, put or drain: a granted request takes an aligned free block, the one it named if any, and a held block of any order goes back for anyone naming a configured class and slot; free frames and held blocks stay a partition; an order-0 request is granted exactly unless starved, an exact one exactly when the frame is free, and one of any order whenever a tree or its slot serves it |
| AllocatorRuns.Run | kernel/mm/llfree.c:456-556 | over every run of gets, puts of held blocks and drains, of every order: each operation takes or gives back the block it should, and after each no frame is held twice or both held and free and none is lost; the books stay settled, and giving everything back restores the free set; it stops only before a request that could meet a half-way failure, which none of order 0-9 without a frame, or with one up to order 6 or of order 9, can |
| AddressSpaces.Machine.Retain | kernel/mm/pmm.c:297-309 | succeeds exactly on a tracked frame with a count that is neither zero nor saturated |
| AddressSpaces.Machine.Free | kernel/mm/pmm.c:317-338 | drops one reference and frees the frame exactly at the last one |
| AddressSpaces.StoreKeeps | kernel/mm/vmm.c:430-451 | a store through a writable entry changes one private page of one space, or no private page at all |
| AddressSpaces.ShareKeeps | kernel/mm/vmm.c:368-428 | sharing a page keeps the invariant that a writable private entry is the only entry on its frame |
| AddressSpaces.CopyKeeps | kernel/mm/vmm.c:430-451 | replacing a COW entry by a copy keeps the invariant and what every process sees |
| AddressSpaces.DetachKeeps | kernel/mm/vmm.c:274-311 | dropping an entry keeps reference counts equal to the number of entries on each frame |
| AddressSpaces.Machine.CowFault | kernel/mm/vmm.c:430-451 | returns 0 exactly when there is no COW entry, and 1 exactly when there is one whose count is one or for which a frame is found; on success the entry is writable; what every process sees and which pages may be written to is unchanged in all cases |
| AddressSpaces.Machine.FaultIn | kernel/mm/vmm.c:141-155 | succeeds exactly when the page is absent and a frame and room for a page table are found; the page is new and zero and writable exactly as asked, and no other page changes |
| AddressSpaces.Machine.Store | kernel/mm/vmm.c:109-162 | a user store goes through exactly when the entry is writable, or COW and the fault is resolved; it changes exactly the stored page of that space's private view |
| AddressSpaces.Machine.ForkCow | kernel/mm/vmm.c:368-428 | the child sees a copy of every private page of the parent and nobody else's view changes; a page that could be written to, at once or through a COW fault, still can be in the parent and can be in the child, and no other; fails only at a page for which room for a page table or a needed copy is refused, with the same said of the pages below it; the child gets the parent's areas either way |
| AddressSpaces.Machine.ForkEager | kernel/mm/vmm.c:329-366 | the same specification met by copying every page |
| AddressSpaces.ForkedUnique | kernel/mm/vmm.c:329-428 | the fork specification determines the resulting view, so both forks agree |
| AddressSpaces.ForkStores | kernel/mm/vmm.c:405-418 | after a fork, the pages that may be written to are those of before and, in the child, those of the parent |
| AddressSpaces.Machine.FreeSpace | kernel/mm/vmm.c:292-311 | removes exactly that space's pages, keeping counts and every other view |
| AddressSpaces.Machine.Run | kernel/mm/vmm.c:292-451 | every run of forks, COW faults, stores, fault-ins and frees is a run of the eager-copying machine; what an untouched space sees in its private pages is unchanged; and a page that may be written to stays so until its own space is freed |
| AddressSpaces.Isolation | kernel/mm/vmm.c:368-451 | over every run, what a space sees in a private page, and that page's area, is unchanged by any operations of other spaces |
| AddressSpaces.StaysWritable | kernel/mm/vmm.c:368-451 | over every run, a page that may be written to stays so, through any forks, faults and stores, until its own space is freed |
| Handshake.StepKeeps | kernel/mm/vmm.c:120-201 | every atomic step of every thread keeps the counts of accessors, flag owners and lock holders |
| Handshake.Exclusion | kernel/mm/vmm.c:120-201 | in every interleaving: no mutator while a walk is inside, at most one mutator, at most one walk with the fault lock |
| Handshake.WalkSeesOneSpace | kernel/mm/vmm.c:120-161 | from entering to leaving, a walk sees no change of the space |
| Handshake.NothingLeftBehind | kernel/mm/vmm.c:155-201 | when all threads have left or given up, the accessor count is zero and flag and lock are clear |
| Handshake.Admission | kernel/mm/vmm.c:120-201 | in every interleaving: a walk that counted itself gets in exactly when nobody owns the flag at its second look; a mutator gets the flag exactly when nobody owns it and with it is admitted exactly when no thread is counted in; the lock goes to a walk exactly when no other has it |
| Handshake.Patience | kernel/mm/vmm.c:187-198 | in every interleaving, a mutator gives up only after all its attempts, each of which met another owner of the flag or a thread counted in |
| Handshake.MutatorGetsIn | kernel/mm/vmm.c:187-198 | a mutator that finds the flag free, and nobody counted in when it looks, is admitted, whatever others did in between |
| Handshake.WalkGetsIn | kernel/mm/vmm.c:120-139 | a walk that meets no owner of the flag at its two looks gets in, whatever others did in between |
| VmaTable.MapsOnce | kernel/mm/vma.c:19-25 | the table is a map: an address has at most one kind |
| VmaTable.Conflicts | kernel/mm/vma.c:35-45 | true exactly when the range is malformed or holds a mapped address |
| VmaTable.RangeOk | kernel/mm/vma.c:100-111 | true exactly when the range is well formed and wholly mapped |
| VmaTable.RangeInfo | kernel/mm/vma.c:137-157 | the kind of the whole range, none exactly when the range has no single kind |
| VmaTable.Table.Add | kernel/mm/vma.c:53-98 | maps exactly the range; stays disjoint and maximally coalesced; EINVAL exactly for a malformed or occupied range; ENOMEM exactly with no slot free and nothing to join; counts slots exactly |
| VmaTable.Table.SplitForHole | kernel/mm/vma.c:176-202 | unmaps exactly the hole; fails exactly when both ends stay and no slot is free |
| VmaTable.Table.Remove | kernel/mm/vma.c:204-219 | all or nothing: unmaps exactly the range; EINVAL exactly for a malformed or not wholly mapped range; ENOMEM exactly when the range lies strictly inside one entry and no slot is free |
| VmaTable.Table.RemoveOverlaps | kernel/mm/vma.c:221-236 | all or nothing: unmaps the range whatever was mapped there; ENOMEM exactly as for `Remove` |
| VmaTable.Table.Protect | kernel/mm/vma.c:238-257 | changes the protection of exactly the range; EINVAL exactly for a malformed or not wholly mapped range; ENOMEM if and only if some part of one kind is blocked in the map with all parts before it changed; then those are changed, that part is unmapped if it had been cut out, and the rest is as it was |
| VmaTable.Table.ProtectPart | kernel/mm/vma.c:245-255 | one turn of the loop: fails exactly when the slots do not suffice for the ends that stay and the new entry |
| VmaTable.SameFree | kernel/mm/vma.c:53-98 | the map alone determines how many slots are free, since tables are disjoint and maximally coalesced |
| VmaTable.ProtectUnmaps | kernel/mm/vma.c:250-253 | a change of protection that fails and leaves a page unmapped |
| HeapBlocks.Tiling | kernel/mm/heap.c:87-141 | every address from heap start to break lies in exactly one block |
| HeapBlocks.SplitKeeps | kernel/mm/heap.c:190-203 | cutting a block keeps the chain tiling and linked both ways |
| HeapBlocks.JoinKeeps | kernel/mm/heap.c:252-269 | joining a block with the next keeps the chain tiling and linked both ways |
| HeapBlocks.ExtendKeeps | kernel/mm/heap.c:111-120 | growing the last block keeps the chain tiling up to the new break |
| HeapBlocks.AppendKeeps | kernel/mm/heap.c:121-140 | appending a block keeps the chain tiling up to the new break |
| HeapBins.BinMeaning | kernel/mm/heap.c:50-58 | below the last bin, a bin holds exactly the sizes between two powers of two |
| HeapBins.BinMonotone | kernel/mm/heap.c:50-58 | a larger size is never in a smaller bin |
| HeapBins.BinForSize | kernel/mm/heap.c:50-58 | the loop computes the bin that the two lemmas above characterise |
| HeapBins.CachePush | kernel/mm/heap.c:228-243 | pushing keeps each cached block exactly once, in a cache of its class, within the limit |
| HeapBins.CachePop | kernel/mm/heap.c:155-173 | popping yields a cached block of the class and keeps the same |
| KernelHeap.Heap.FindFit | kernel/mm/heap.c:79-85 | finds a free block that fits by following the links of the bins, none exactly when no free block of any bin fits |
| KernelHeap.Heap.Grow | kernel/mm/heap.c:87-141 | yields a free block of at least the payload without disturbing live blocks; fails, changing nothing, exactly when the pages cannot be had or the growth would pass the end of the heap |
| KernelHeap.Heap.Carve | kernel/mm/heap.c:188-214 | hands out the block with less than a splittable rest and changes no other live block |
| KernelHeap.Heap.Kmalloc | kernel/mm/heap.c:149-215 | keeps the heap valid (tiling, bins, caches, no two adjacent free blocks, totals equal to live sizes); null exactly for 0 bytes, for more than the capacity, or when the cache has no block, no free block fits and the heap cannot grow; otherwise a fresh block of at least the request and all live blocks unchanged |
| KernelHeap.Heap.Claim | kernel/mm/heap.c:224-227 | only one of several frees of a block gets it; no other block changes |
| KernelHeap.Heap.FreeToCache | kernel/mm/heap.c:228-243 | a small block goes to its cache and is no longer live, or nothing changes |
| KernelHeap.Heap.FreeToBins | kernel/mm/heap.c:247-275 | coalescing with both neighbours and binning removes exactly the freed block from the live ones; all others stay live, claimed or not |
| KernelHeap.Heap.Kfree | kernel/mm/heap.c:217-275 | keeps the heap valid; removes exactly the freed block from the live ones, and ignores null and a block not in use |
| KernelHeap.LiveApart | kernel/mm/heap.c:149-215 | live blocks are 16-aligned, inside the heap and do not overlap, headers included |
| HeapLists.FreeLists.Insert | kernel/mm/heap.c:71-77 | the pointer surgery pushes the block on its bin's list and keeps every list doubly linked; the heap's bins are these lists |
| HeapLists.FreeLists.Remove | kernel/mm/heap.c:60-69 | the pointer surgery takes the block out of its bin's list, wherever it stands, and keeps every list doubly linked |
| HeapLists.FreeLists.Walk | kernel/mm/heap.c:79-85 | following the links visits the list in order |
| HeapRuns.Step | kernel/mm/heap.c:149-275 | one step of one thread, in a cache of its CPU or under the lock: where it stands next and what it hands out or takes back, by cases (a cached block if there is one, a refusal exactly if no free block fits and the heap cannot grow, a claim exactly of a block in use); only that block's liveness changes, and every block stays accounted for |
| HeapRuns.Run | kernel/mm/heap.c:149-275 | in every interleaving of allocating and freeing threads on any CPUs: every step does what `Step` says; replaying the hand-outs and frees gives exactly the blocks that callers have; a block is handed out only when no caller has it and freed only when one has; live blocks are those, each as large as asked for, and those being freed, each by one thread |
| HeapRuns.FreedBetween | kernel/mm/heap.c:149-275 | between two hand-outs of a block it was freed |
| HeapRuns.HandedBetween | kernel/mm/heap.c:217-227 | between two frees of a block it was handed out, so it is freed once for each hand-out |
| BlockGroups.UsedDetermines | kernel/fs/ext2.c:311-385 | the set of blocks in use determines every bitmap, group count and the superblock count |
| BlockGroups.Taken | kernel/fs/ext2.c:333-350 | setting a clear bit with its counts adds exactly one block to those in use |
| BlockGroups.Returned | kernel/fs/ext2.c:364-385 | clearing the bit of a block in use with its counts removes exactly that block |
| BlockGroups.Cleared | kernel/fs/ext2.c:364-385 | freeing a block keeps the counts right exactly when it was in use |
| BlockGroups.UsedCount | kernel/fs/ext2.c:311-385 | conservation: blocks in use and the superblock's free count add up to the blocks of the volume |
| BlockTree.GetBlockIsPtr | kernel/fs/ext2.c:481-507 | for every index below 12+P+P²+P³ the divisions of the lookup walk to the node named by the index |
| BlockTree.DataNodeBijection | kernel/fs/ext2.c:487-507 | file block indices and data nodes correspond one to one |
| BlockTree.SetPtr | kernel/fs/ext2.c:509-635 | storing one pointer changes that node of the map and no other |
| BlockTree.SetKeepsTree | kernel/fs/ext2.c:509-635 | hooking in an unshared block keeps the pointer blocks a tree without sharing |
| BlockTree.HookIn | kernel/fs/ext2.c:520-610 | an absent pointer block that is allocated, zeroed and linked adds one node and changes no other |
| BlockTree.PlacedBlock | kernel/fs/ext2.c:481-635 | putting a block in place, as the lookup sees it: that index reads the block and every other index what it did |
| Ext2Inode.Volume.Alloc | kernel/fs/ext2.c:311-362 | returns a block not in use, zeroed, and marks exactly it: the first clear bit from the hint, in the first group with a free block from the preferred one on; fails only with a zero superblock count and changes nothing |
| Ext2Inode.Volume.Free | kernel/fs/ext2.c:364-385 | removes exactly the block from those in use; ignores 0 and numbers beyond the volume; keeps the counts right exactly when the block was in use or is ignored |
| Ext2Inode.Volume.SetBlockPtr | kernel/fs/ext2.c:509-635 | afterwards the lookup of the index yields the block and of every other index what it did; the map stays a tree; out of blocks, no index changes |
| Ext2Inode.Volume.FreeIndirect | kernel/fs/ext2.c:387-404 | frees every block of the subtree exactly once |
| Ext2Inode.Volume.FreeAll | kernel/fs/ext2.c:406-420 | leaves in use exactly the blocks that were not the file's, and an empty inode |
| FileBlocks.NeededEmpty | kernel/fs/ext2.c:674-702 | the blocks missing for the first n file blocks of an empty inode are n and the closed formula for the pointer blocks |
| FileBlocks.UpToStep | kernel/fs/ext2.c:727-758 | placing the next file block fills the map one further, whatever part of it was there, with no pointer block too many |
| FileBlocks.AbsentIsWanting | kernel/fs/ext2.c:509-635 | when the file is filled up to a block, the pointer blocks it still lacks are those that begin with it and were missing from the start |
| FileBlocks.SubtreeSplit | kernel/fs/ext2.c:387-404 | the blocks of a subtree are its node and the blocks of the children's subtrees |
| Ext2Inode.Volume.WriteBlocks | kernel/fs/ext2.c:727-758 | gives the first blocks of the file a block each, keeping those it had; other files' blocks are untouched; it succeeds exactly when the missing file and pointer blocks are free, on an empty inode n plus the indirect-block formula |
| Ext2Inode.Volume.WriteFile | kernel/fs/ext2.c:704-759 | grows in place or frees and rewrites; succeeds exactly when the missing blocks are free, for a file that shrinks when n plus the indirect-block formula fit beside the other files' blocks; a failed write leaves the stored inode: what it had hung below the inode's old pointers stays in the file, and exactly what hangs below new ones is in use and in no file |
| Ext2Inode.Abandon | kernel/fs/ext2.c:731-739 | dropping the map built in memory: the blocks of no file are then those of before and exactly the ones below pointers the stored inode does not have |
| Ext2Inode.WrittenFile | kernel/fs/ext2.c:704-759 | in terms of the lookup: written indices have distinct blocks in use, all others map as before |
| Ext2Inode.Volume.WriteThenFree | kernel/fs/ext2.c:704-759 | writing to an empty inode and freeing it puts every bitmap, group count and the superblock count back if and only if there were enough blocks, or none at all |
| Ext2Inode.LostBlocks | kernel/fs/ext2.c:731-739 | two free blocks and a file of three: none is left after the failed write |
| MetadataCache.Place | kernel/fs/ext2.c:212-237 | filling a clean slot of the block's set keeps one valid slot per block and changes the disk at that block only |
| MetadataCache.WriteBack | kernel/fs/ext2.c:182-198 | writing a dirty slot back does not change the disk the cache stands for |
| MetadataCache.Cache.Victim | kernel/fs/ext2.c:182-198 | yields a clean slot of the block's set without changing the disk |
| MetadataCache.Cache.ReadMeta | kernel/fs/ext2.c:212-226 | returns the disk's block and changes nothing of the disk |
| MetadataCache.Cache.WriteMeta | kernel/fs/ext2.c:228-237 | changes the disk at exactly that block |
| MetadataCache.Cache.WriteDirect | kernel/fs/ext2.c:200-210 | changes disk and device at exactly that block and drops a cached copy |
| MetadataCache.Cache.Flush | kernel/fs/ext2.c:244-262 | afterwards the device is the disk the cache stood for |
| MetadataCache.Cache.ReadDirect | kernel/fs/ext2.c:165-169 | an uncached read returns what the block holds if and only if no dirty slot holds something else |
| MetadataCache.StaleDirect | kernel/fs/ext2.c:165-169 | after a write through the cache a direct read of the block misses it and a cached read does not |
| MetadataCache.Cache.Run | kernel/fs/ext2.c:165-262 | in every sequence of metadata and direct reads and writes and flushes, each metadata read returns the last write, and so does each direct read of a block that was not written through the cache since its last direct write or a flush; after a final flush the device holds the last writes |
| Ext2Trace.DataStays | kernel/fs/ext2.c:351-355 | writing pointer blocks through the cache leaves every block of file data as last written directly, since no block is both |
| Ext2Trace.ThroughCache | kernel/fs/ext2.c:200-237 | after the accesses of the write path, however slots were evicted, every block read through the cache and every data block read straight from the device has the contents the volume holds |
| Directories.KeyExact | kernel/fs/ext2.c:789-791 | names are stored in full exactly when shorter than 256 bytes |
| Directories.SameKey | kernel/fs/ext2.c:789-791 | a name of 257 bytes that is stored as one of 1 byte |
| Directories.KeyUnique | kernel/fs/ext2.c:789-791 | a name shares its stored form with no other name shorter than 256 bytes if and only if it is itself shorter |
| Directories.Directory.Lookup | kernel/fs/ext2.c:761-787 | returns the inode of the first live record with the name, 0 exactly when there is none |
| Directories.Directory.Add | kernel/fs/ext2.c:789-860 | record lengths keep tiling each block and covering names; the name is added, every other name keeps its inode; fails exactly when no block has room and none can be spared |
| Directories.Directory.Remove | kernel/fs/ext2.c:862-898 | succeeds exactly when the name is present; drops its first entry, every other name keeps its inode |
| Directories.AddUnique | kernel/fs/ext2.c:789-860 | a directory stays a map exactly when the added name was absent |
| Directories.RemoveUnique | kernel/fs/ext2.c:862-898 | in a directory that is a map, a removed name is gone and it stays a map |
| UndoLog.Installer.FlushCache | limine/limine.c:250-266 | afterwards the device is the flat byte array the cache stood for |
| UndoLog.Installer.CacheBlock | limine/limine.c:268-289 | loads the block; the flat byte array is unchanged, and the device is either unchanged or caught up |
| UndoLog.Installer.Read | limine/limine.c:400-417 | a chunked read returns the slice of the flat byte array |
| UndoLog.Installer.WriteRaw | limine/limine.c:446-468 | a chunked write splices the flat byte array |
| UndoLog.Installer.Write | limine/limine.c:419-468 | logs the old bytes first; refused, changing nothing, exactly when the log is full |
| UndoLog.Installer.ReverseLog | limine/limine.c:305-311 | the loop that copies the entries back to front into a second array reverses the log |
| UndoLog.ReplayBackwards | limine/limine.c:470-517 | replaying backwards, the first entry that covers a byte has the last word, whatever the bytes were |
| UndoLog.Restores | limine/limine.c:470-517 | so it restores the original bytes, even on a device that missed what was in the cache |
| UndoLog.Installer.Uninstall | limine/limine.c:470-517 | forgets the cache, dirty or not, and replays the log on the device |
| UndoLog.Installer.Install | limine/limine.c:400-468 | for every sequence of logged writes, reads and flushes, each read returns the bytes of a plain array, and the log can restore the original whatever is on the device and in the cache |
| UndoLog.Installer.InstallThenUninstall | limine/limine.c:400-517 | for every sequence of logged writes, reads and flushes, uninstalling restores every device byte |
| PipeRing.CopyOut | kernel/fs/pipe.c:176-184 | a copy in at most two pieces yields the ring's bytes in order |
| PipeRing.CopyIn | kernel/fs/pipe.c:268-277 | a copy in at most two pieces changes exactly the positions after the contents |
| PipeRing.Ring.ReadLocked | kernel/fs/pipe.c:151-193 | consumes the oldest bytes, as many as asked for and present; blocks exactly on an empty ring with a writer |
| PipeRing.Ring.PeekLocked | kernel/fs/pipe.c:195-237 | returns the bytes after `skip` and consumes none |
| PipeRing.Ring.WriteLocked | kernel/fs/pipe.c:239-286 | appends as many bytes as fit; blocks exactly with bytes left over and a reader |
| PipeRing.Run | kernel/fs/pipe.c:151-286 | over every interleaving of locked sections, each read, peek and write answers exactly as a queue with room for 65536 bytes would; so what was received is a prefix of what was sent and at most a ring full is outstanding |
| PipeRing.Fifo | kernel/fs/pipe.c:151-286 | for such a queue, what was sent is what was received followed by what is still in it |
| PipeLifetime.StepKeeps | kernel/fs/pipe.c:51-92 | every atomic step keeps endpoint references equal to directional references plus steps in flight |
| PipeLifetime.FreedOnce | kernel/fs/pipe.c:51-92 | in every interleaving the pipe is freed at most once, exactly when no end is open and no step is under way, and is not touched afterwards |
| PipeLifetime.RefCall | kernel/fs/pipe.c:55-67 | taking an end of one direction, with any steps of others in between, gives the caller one more end of that direction and none of the other |
| PipeLifetime.UnrefBegins | kernel/fs/pipe.c:69-93 | dropping an end lowers the count of its direction only, and goes on to wake the other side exactly at the last one |
| PipeLifetime.UnrefEnds | kernel/fs/pipe.c:51-93 | a drop that has begun ends by giving back one endpoint reference, whatever others do in between |
| PipeLifetime.Ledger | kernel/fs/pipe.c:51-92 | in every interleaving, the count of each direction is the initial one plus completed calls to take such an end minus begun calls to drop one |
| Paths.PathCanon | kernel/proc/jail.c:29-56 | the buffer loop with its stack of starts computes the canonical path of the specification, limits included |
| Paths.LimitedIsResolve | kernel/proc/jail.c:29-56 | within the limits the result is the component-stack meaning of the path |
| Paths.CanonPlain | kernel/proc/jail.c:29-56 | the output fits, starts with a slash and has no empty, "." or ".." component |
| Paths.CanonIdempotent | kernel/proc/jail.c:29-56 | canonical paths are fixed points, for all inputs and sizes |
| Paths.CanonOfPrefix | kernel/proc/jail.c:29-56 | canonicalising a prefix that fits first changes nothing: the condition a caller can check |
| Paths.PrefixLaw | kernel/proc/jail.c:29-56 | the prefix law holds if and only if the prefix fits or the rest leads nowhere from what is left of it |
| Paths.PrefixMustFit | kernel/proc/jail.c:48 | a prefix of 129 names, in the buffers callers pass, that breaks the law |
| Paths.Clamp | kernel/proc/jail.c:58-72 | without a root the path is unchanged; with one it is the clamped path, cut to the buffers |
| Paths.ClampStaysUnder | kernel/proc/jail.c:58-72 | every path is clamped to the root or a path below it, with plain components, and clamping is idempotent |
| Paths.ClampFits | kernel/proc/jail.c:58-72 | when the buffers are large enough nothing is cut |
| Paths.CutStaysUnder | kernel/proc/jail.c:58-72 | even a cut result stays at or below the root as a string when the root fits, and as a path exactly unless the buffers keep just the three characters "/.." after it; four characters are always enough |
| Paths.CutLeaves | kernel/proc/jail.c:58-72 | a name that begins with two dots, cut after them, leads above the root |

## Left out

- Weak memory: a compare-and-swap loop, a locked section and a single atomic access are each one step, interleaved under sequential consistency.
- `llfree_change_tree`, statistics and printing of LLFree.
- LLFreeAllocator.LLFree.Get: the request must not be one that can stop half way in the lower allocator (an exact one of order 7, 8 or above 9, or any above order 9, in a state that `Harmless` describes); Lower.Get and Lower.GetAt state what happens then, and the upper layer goes on from a broken lower one.
- LLFreeAllocator.LLFree.GetExact: the same condition; above order 0 it is not said when the upper layer grants a free block.
- LLFreeAllocator.LLFree.GetAny: the same condition; above order 0 the condition for a grant is sufficient, not necessary: the remembered candidates and the slots of others can also serve.
- AllocatorRuns.Step: the same condition.
- AllocatorRuns.Run: stops before a request that does not meet the same condition.
- ConcurrentLower.Safety: exact gets of orders 7 and 8, orders above 9, and splitting a huge child are not among the concurrent steps; their coded undo is not exact even without concurrency.
- The upper allocator is modelled sequentially.
- Page-table frames and index splitting, the space reference count, device mappings, `vmm_protect`, `vmm_phantom_relax_page`: entries are a flat map from (space, page) to frame and flags.
- TLB invalidation, CR3 and other hardware effects, spinlock internals, interrupts.
- The DMA reserve, contiguous allocation and free-frame statistics of the frame manager.
- `vma_copy`, `vma_lookup`, `vma_page_fault_allowed` and other one-line readers of the range table.
- KernelHeap.Heap.Kmalloc: the statistics are updated in the same step as the block; `kcalloc`, `krealloc` and the leak checker are not modelled.
- Device errors and scratch-allocation failures in ext2 and the installer: device operations succeed.
- Superblock and inode-table writes other than committing a file's block map, inode allocation, file bytes, truncation to a non-zero length, VFS sync and mounting of ext2.
- Ext2Trace.ThroughCache: bitmap and inode blocks, which are only ever accessed through the cache, and the bytes of files are not in the trace.
- The first-data-block offset of 1 KiB ext2 images: blocks are numbered group * blocks-per-group + bit, as in the code, with block 0 in use.
- Directory blocks are sequences of records with lengths and names; the byte layout of a record is not modelled.
- Installer file formats, partition tables, the stored uninstall file and command-line handling.
- Pipe wake-ups, signals, ancillary data and the pseudo-terminal code that sets references directly; liveness of blocked readers and writers.
- Paths: `path_canon` is given a buffer of at least two bytes, as every caller does.
- procfs, devfs, sockets, tty, boot, logging and the other plumbing of the kernel.
