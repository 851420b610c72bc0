# LibPM in Dafny

LibPM keeps a program's heap in a container file. This project models the data structures and transformations
underneath it, and two codecs that ship with it, and proves what they are for.

| files | what they model |
|---|---|
| `Basics.dfy` | bytes, characters, pages, sequences and optional values |
| `Rb*.dfy` | the red-black tree macros: insertion, removal, rotations, recolouring and searches on heap nodes with parent pointers |
| `Splay*.dfy` | the top-down splay tree, as a map and as the index of allocations by address range |
| `Htable*.dfy` | the chained hash table of pointers |
| `FixMapper.dfy`, `NlMapper.dfy` | the two page allocators |
| `Closure.dfy`, `ClosureRun.dfy` | the closure computation, which moves every reachable volatile allocation into the container |
| `Slab*.dfy` | the four-level slab tree, its ids, the recorded pointers and their relocation, the slots of a data page, and slabs over several containers and processes |
| `Pptr*.dfy` | the persistent-pointer list with copy-on-write snapshots and roll-forward |
| `Tpl*.dfy` | the tpl serializer: packing, sizes, dumping, checking, loading, unpacking, reassembly |
| `Csv.dfy`, `CStrings.dfy`, `CTokens.dfy` | the CSV writer and reader, the C-string writer and unescaper, and the tokenizer of command lines |

Code that changes nodes, pages, buffers or fields in place is modelled by classes and methods that do so. The trees
and the hash table keep a ghost copy of what their nodes hold; the lemmas about rotations, splices and chains are
stated over such copies, so that each of them speaks of one change. A position in a red-black tree is a subtree in a
context, and the repair loops move that position. The serializer, the parsers and the relocation of pointers are
proved against functions, and the round trips are lemmas and methods that compose the operations.

What the source does not do, and the proofs bring out:

- The callback of fix_back_references does not look whether the target was moved. A pointer to a registered
  allocation that stayed behind is rebased onto NULL (`ClosureRun.BackReferenceExact`,
  `ClosureRun.BackReferenceToUnmoved`).
- slab_insert_pointer ends the process at a pointer that is neither NULL nor to a data page, so a pointer to volatile
  memory that is not registered stops the closure computation. `ClosureRun.Run` says when that happens.
- The splay comparison ignores the size of the entry that is inserted, so an allocation that begins before another one
  and reaches into it is accepted (`SplayRanges.PlacedDisjoint`, `SplayRanges.RegisterOverlap`).
- tpl_load overwrites the flags that tpl_sanity has set, and loses the one for strings in the 1.2 form. Such an image is
  read back exactly if it holds no strings (`TplOldForm.OldImageExact`, `TplOldForm.ReadOldImage`).
- A tpl_load that fails leaves the flags of its buffer set, and the next one starts from them
  (`TplFlags.LoadAfterFailure`).
- tpl_sanity accepts some buffers that hold no serialized values (`TplDecode.SaneReadable`,
  `TplDecode.HugeCountAccepted`).
- Slab entry ids are taken from a counter of the process that starts at 0 and is not stored in the container. In a
  container that was restored by a new process, a new entry's id leads to another entry, and a pointer to the new page is
  relocated to the page of that one; in the second container of a process it leads to another entry or to none (`SlabRuns.NewProcess`,
  `SlabRuns.Misdirected`, `SlabRuns.SecondContainer`). All entries are found by their ids exactly as long as the counter
  fits whenever one is initialised (`Slab.Slab.NewEntry`, `SlabRuns.Run`).
- do_insert_pointer does not compare the index with the size of the record page. The page has room for 341 records, and
  the array that is declared on it for 512; relocation works exactly as long as they all lie inside the page
  (`SlabPtrs.InPageExact`, `SlabPtrs.SurvivesExact`, `SlabPtrs.Overrun`, `SlabRuns.Overfill`).
- The macro for the capacity of a data page is documented as approximate. At sizes of 8, 16, 24 and 56 bytes it is too
  large: slab_palloc hands out slots that run past their page (`SlabPage.OverrunExact`, `SlabPage.FirstOverrun`,
  `SlabPage.FillOverrun`).
- pptr_map with CPOINT_COMPLETE takes the current page for every snapshot (`PptrPages.MappedAgain`).
- tpl_gather_mem does not end on an image that claims to be of length 0 (`TplGather.AdvancesExact`), and a separator of
  several bytes inside a CSV field does not cause quotes (`Csv.LongSeparator`).

## Model

| member | source | states |
|---|---|---|
| RbRules.PlugRules | src/utils/tree.h:46-54 | a subtree with the right root colour and black height can be put into a context and the whole keeps the colour and height rules |
| RbRules.HeightBound | src/utils/tree.h:46-54 | a red-black tree of n nodes has height at most 2 log2(n + 1), stated as 2^height <= (n + 1)^2 |
| RbRotate.RotateLeftAt | src/utils/tree.h:335-353 | a left rotation at any node rewrites exactly the pointers of three nodes, the parent link included, and leaves the in-order sequence of the subtree and of the whole tree alone |
| RbRotate.RotateRightAt | src/utils/tree.h:355-373 | the mirror image |
| RbNodes.Zip | src/utils/tree.h:313-324 | pointers that form a subtree inside a context form the whole tree: child and parent pointers agree everywhere |
| RbInsert.SetBlackRed | src/utils/tree.h:326-330 | recolours a node and one of its children, and nothing else |
| RbInsert.FixLeft | src/utils/tree.h:401-419 | one turn of the insertion repair below the left child of a black grandparent, in its three cases, keeps everything but the one red-red pair, keeps the order, and climbs |
| RbInsert.FixRight | src/utils/tree.h:420-436 | the mirror image |
| RbInsert.InsertColor | src/utils/tree.h:400-442 | from a tree whose only fault is a red node below a red parent, the loop ends with all colour and height rules restored, a black root, and the same in-order sequence; it ends because it climbs |
| RbInsert.Seek | src/utils/tree.h:593-605 | the descent ends at a node that compares equal, or at the only hole of the tree where the new node fits in order, for every comparison that is monotone along the tree |
| RbInsert.Leafed | src/utils/tree.h:606-613 | a new red leaf in that hole adds exactly itself, after everything that compares smaller and before everything that compares greater |
| RbInsert.Insert | src/utils/tree.h:587-616 | for every comparison that is monotone along the tree, keeps every colour and height rule, the order and all parent pointers; answers NULL and adds exactly the new node in its place if no node compares equal, otherwise answers one that does and changes neither the tree nor the new node |
| RbInsert.PlacedSorted | src/utils/tree.h:587-616 | with the comparison of keys that place keeps a search tree sorted |
| RbRemoveColor.FixLeft | src/utils/tree.h:446-479 | one turn of the deletion repair on the left: each of the sibling cases either restores the whole tree or moves the missing black up, in all colourings of the nephews |
| RbRemoveColor.FixRight | src/utils/tree.h:480-511 | the mirror image |
| RbRemoveColor.RedSiblingLeftDeficit | src/utils/tree.h:449-455 | turning a red sibling black by a rotation keeps the black height missing in exactly the same subtree, one level further down |
| RbRemoveColor.BlackNephewsLeftDeficit | src/utils/tree.h:456-463 | a red sibling of two black nephews moves the missing black height to the parent |
| RbRemoveColor.OuterNephewLeftRepaired | src/utils/tree.h:464-477 | the last rotation restores all paths |
| RbRemoveColor.RemoveColor | src/utils/tree.h:444-517 | from a tree in which exactly one subtree is one black node short, the loop ends with all rules restored and the same in-order sequence |
| RbRemove.CutNode | src/utils/tree.h:525-531 | a node with at most one child leaves the tree and its child takes its place |
| RbRemove.Successor | src/utils/tree.h:532-536 | the left descent in the right subtree ends at the in-order successor |
| RbRemove.SuccessorInOrder | src/utils/tree.h:537-566 | moving the successor into the place of a node leaves the in-order sequence without that node |
| RbRemove.SuccessorRules | src/utils/tree.h:537-566 | the splice leaves either a correct tree or exactly one subtree one black node short, as the colour of the successor says |
| RbRemove.CutSuccessor | src/utils/tree.h:532-566 | the splice on the heap, also when the successor is the right child of the node |
| RbRemove.Remove | src/utils/tree.h:519-585 | keeps every colour and height rule, the order of the others and all parent pointers and removes exactly the given node, in all three splice shapes; nothing is asked of the order |
| RbSearch.Find | src/utils/tree.h:618-634 | answers a node that compares equal if there is one, for every comparison that is monotone along the tree |
| RbSearch.NFind | src/utils/tree.h:636-655 | answers an equal node if there is one, otherwise the first node above the key |
| RbSearch.CompareMonotone | src/utils/tree.h:618-634 | on a search tree comparing keys is such a comparison, and only the key itself is equal |
| RbSearch.ComparePageMonotone | src/slab.c:45-58 | on pages that do not overlap, the range comparison of the slab is such a comparison, and exactly the page that holds the address is equal |
| RbSearch.FindPage | src/slab.c:362-369 | slab_find answers the one page with key <= address < key + PAGE_SIZE, and NULL if and only if no page holds the address |
| RbSearch.Next | src/utils/tree.h:657-677 | the next node in order, or NULL for the last one |
| RbSearch.Prev | src/utils/tree.h:679-699 | the previous node in order, or NULL for the first one |
| RbSearch.MinMax | src/utils/tree.h:701-714 | the first or the last node in order |
| RbSearch.ForEach | src/utils/tree.h:728-731 | RB_MIN and RB_NEXT enumerate exactly the nodes of the tree in the order of their keys |
| SplayTree.RotateRight | src/utils/tree.h:81-85 | keeps the in-order sequence of left tree, middle and right tree |
| SplayTree.LinkLeft | src/utils/tree.h:93-97 | moves the root and its left subtree to the left tree and keeps that sequence |
| SplayTree.Assemble | src/utils/tree.h:105-110 | joins the three trees into one with the same sequence |
| SplayTree.Descend | src/utils/tree.h:203-234 | every turn keeps the sequence, everything in the left tree before the key and everything in the right tree after it |
| SplayTree.Splay | src/utils/tree.h:202-235 | keeps the in-order sequence and leaves at the root a node that compares equal if any does, and otherwise an in-order neighbour of the key |
| SplayMap.Find | src/utils/tree.h:120-130 | answers an equal node if and only if there is one; the contents stay the same |
| SplayMap.Insert | src/utils/tree.h:157-179 | adds exactly the new node at the place of its key, or answers an equal node and changes no contents |
| SplayMap.Remove | src/utils/tree.h:181-200 | removes exactly the node that compares equal, or nothing |
| SplayRanges.CompareMonotone | src/closure.c:84-89 | on disjoint allocations the range comparison is monotone along the tree |
| SplayRanges.Lookup | src/closure.c:84-92 | SPLAY_FIND of an address answers the one allocation that contains it, or NULL if none does |
| SplayRanges.PlacedDisjoint | src/closure.c:84-89 | the comparison looks only at the start of a new allocation: after an insertion that was accepted the allocations are disjoint if and only if the new one overlaps none of the old ones |
| SplayRanges.OverlapPlaced | src/closure.c:84-89 | an input for which it overlaps: 10 bytes at 5 when 4 bytes at 10 are registered |
| SplayRanges.RegisterOverlap | src/closure.c:108-114 | SPLAY_INSERT accepts that allocation, and the tree then holds two that overlap |
| SplayRanges.Register | src/closure.c:108-114 | registering an allocation that overlaps no other keeps the allocations disjoint |
| Htable.HTable.constructor | src/htable.c:74-84 | an empty map in a table of four buckets |
| Htable.HTable.FindPointer | src/htable.c:33-41 | the pointer to the entry with the key if its chain holds one, and otherwise to the end of the chain |
| Htable.HTable.Insert | src/htable.c:104-124 | updates the map at the key and answers 1 exactly if the key is new; afterwards there are no more entries than buckets |
| Htable.HTable.Lookup | src/htable.c:126-131 | the value of the map, or NULL |
| Htable.HTable.Remove | src/htable.c:133-145 | removes the key from the map and answers its value, or NULL and no change |
| Htable.HTable.Resize | src/htable.c:43-72 | moves every entry exactly once to the bucket its hash selects, so the count assertion holds, the map is the same, and the new length is a power of two with room for all entries |
| Htable.HTable.ForEach | src/htable.c:164-179 | calls the function exactly once for every pair of the map, so the count assertion holds |
| Htable.HTable.Filter | src/htable.c:181-200 | removes exactly the pairs that the function selects |
| HtableChains.Bucketed | src/htable.c:33-41 | an entry is in the bucket whose number is the remainder of its hash by the number of buckets |
| HtableChains.MoveOne | src/htable.c:57-65 | pushing an entry to the front of its new chain keeps all new chains linked, each entry in the bucket of its hash and each key once |
| FixMapper.FixedMapper.Grow | src/fixmapper.c:136-173 | the new pages join the free list in the order of the file |
| FixMapper.FixedMapper.AllocPage | src/fixmapper.c:254-281 | hands out the page that has been free longest and never one in use; each page of the file stays either free or in use and not both; the file never has more pages than it began with or than twice the largest number ever in use at once |
| FixMapper.FixedMapper.FreePages | src/fixmapper.c:289-305 | the page goes to the end of the free list |
| FixMapper.FreeExact | src/fixmapper.c:289-305 | after a page has been freed the free list holds each page once if and only if the page was in use |
| FixMapper.InsertExact | src/utils/queue.h:403-411 | what freeing does to the links: a page that is not listed is linked in at the end; one that is listed becomes the end where it is, and those behind it are lost, or its own successor if it was the last |
| FixMapper.Run | src/fixmapper.c:254-305 | the same over every run of allocations and frees |
| NlMapper.Nlm.AddPages | src/nlmapper.c:133-159 | the new pages are free, each mapped to its own part of the file, and all offsets are still a permutation |
| NlMapper.Nlm.AllocPage | src/nlmapper.c:246-268 | hands out the page that has been free longest, with the part of the file it is mapped to; no page is lost or doubled |
| NlMapper.Nlm.FreePages | src/nlmapper.c:270-285 | a page in use goes to the end of the free list; any other address, also one before the first page, is reported and changes nothing |
| NlMapper.Nlm.Swap | src/nlmapper.c:379-394 | two pages in use exchange their offsets, and the offsets stay a permutation; otherwise nothing changes |
| NlMapper.Nlm.Close | src/nlmapper.c:294-323 | both assertions hold: all pages of the file are found, and none is left |
| NlMapper.Onto | src/nlmapper.c:379-394 | after any swaps every part of the file is mapped to some page |
| ClosureRun.ClassifyPointers | src/closure.c:142-178 | each registered location goes to the allocation it lies in, to the worklist, or stays in the table |
| ClosureRun.ClassificationSuffices | src/closure.c:133-178 | which is all that the worklist needs |
| Closure.State.PersistValloc | src/closure.c:192-219 | one pointer: its allocation is moved if it is a registered one seen for the first time, its pointers join the worklist at their new places, and the pointer follows it |
| Closure.State.MoveVolatileAllocations | src/closure.c:243-252 | the loop over the growing worklist ends; every entry of it is processed and recorded, or slab_insert_pointer ends the process at one; provided that no pointer points into memory that the container has yet to hand out, it runs to its end if and only if there is a closed set of allocations in which every pointer, like every root, is NULL or points into a registered allocation or to a data page of the container |
| Closure.SubsetSize | src/closure.c:247-251 | the measure behind it: a worklist only grows when one more of finitely many allocations moves |
| ClosureRun.WorklistLength | src/closure.c:198-210 | the worklist ends up as long as the roots and the pointers inside moved allocations, each listed once |
| ClosureRun.MovedReachable | src/closure.c:180-219 | exactly the allocations reachable from persistent pointers are moved: the least set that is closed |
| ClosureRun.ProcessedPointer | src/closure.c:212-219 | every processed pointer holds the relocated image of its old value and targets no registered volatile allocation |
| ClosureRun.AllocationIntact | src/closure.c:198-210 | a moved allocation is at its new place word for word, with its pointers relocated, and its old place is gone |
| ClosureRun.RhoInjective | src/closure.c:212-212 | relocation is injective on values that do not already point into the new places |
| ClosureRun.AliasingPreserved | src/closure.c:184-190 | two processed pointers are equal afterwards if and only if they were equal before |
| ClosureRun.RestUntouched | src/closure.c:213-218 | all other memory is as it was |
| ClosureRun.FixBackReferences | src/closure.c:257-276 | every location still in the table is rewritten by the same rule, once |
| ClosureRun.BackReferenceLive | src/closure.c:133-141 | the locations still in the table are live and not yet touched when that happens |
| ClosureRun.BackReferenceExact | src/closure.c:264-270 | a back reference follows its target if and only if the target is no registered allocation that stayed behind |
| ClosureRun.BackReferenceToUnmoved | src/closure.c:266-267 | an input for which it does not: the pointer is rebased onto a NULL address |
| ClosureRun.Run | src/closure.c:142-276 | classification, worklist and back references in one: the least closed set of allocations moves; every word is where its allocation is and no old place is left; every pointer in the container or in a moved allocation holds the relocated image of its value, two of them are equal afterwards if and only if they were before, and a back reference follows its target if and only if that is no registered allocation that stayed behind; it runs to its end under exactly the condition of MoveVolatileAllocations |
| SlabShape.PlaceOfId | src/slab.c:213-219 | an id is the mixed-radix number of the indices computed from it |
| SlabShape.IdOfPlace | src/slab.c:213-219 | and the indices computed from the number of a position are that position |
| SlabShape.IdModulo | src/slab.c:213-219 | the indices computed from an id are those of its remainder by the capacity of the four levels |
| SlabShape.LookupAll | src/slab.c:211-228 | the position computed from an id exists if and only if the id modulo the capacity is below the number of entries, and then holds the entry of that number |
| SlabShape.FullExact | src/alloc.c:54-66 | the last pages of all levels are full if and only if there are as many entries as there can be |
| SlabShape.InLastInner | src/alloc.c:90-102 | a bucket added to an inner page that is not full comes next in the order of positions |
| SlabShape.InNewInner | src/alloc.c:82-102 | so does one in a new inner page |
| SlabShape.InNewOuter | src/alloc.c:60-102 | and one in a new inner page of a new outer page |
| Slab.Slab.constructor | src/slab.c:129-180 | the first page of each level, with all entries of the bucket free; the counter for ids is not touched |
| Slab.Slab.Grow | src/alloc.c:54-107 | an empty free list gets the entries of a new bucket in order, unless all levels are full; the entries that were there keep their positions and ids |
| Slab.Slab.GetFree | src/alloc.c:38-111 | the first entry of the free list, in the order of the positions; NULL if and only if as many entries are initialised as there can be |
| Slab.Slab.NewEntry | src/slab.c:74-89 | the next entry in the order of the positions gets the id that the counter of the process has reached; every initialised entry is found by its id afterwards if and only if that was so before and the counter was, modulo the capacity, the number of entries initialised in this slab |
| Slab.Slab.Init | src/slab.c:74-89 | the entry gets the next id of the process, which is one up modulo 2^32 afterwards, and joins the address tree |
| SlabCells.NamedNext | src/slab.c:17-21 | one more id keeps all entries found by their ids if and only if it is, modulo the capacity, the number of entries before it |
| Slab.Slab.RoundTrip | src/slab.c:211-228 | get_slab_entry_by_id of an initialised entry's id is that entry if and only if the id is, modulo the capacity, the entry's position |
| SlabRuns.Run | src/slab.c:17-21 | over any sequence of new entries in this slab, new entries in the slabs of other containers and restarts of the process, every initialised entry is found by its id at the end if and only if that was so at first and the counter fitted each time an entry of this slab was initialised |
| SlabRuns.AloneFits | src/slab.c:17-21 | which it does for the first container of a process as long as it is the only one |
| SlabRuns.NewProcess | src/slab.c:17-21 | a restored container in a new process, and one new entry: the entry gets id 0, and get_slab_entry_by_id answers the first entry instead |
| SlabRuns.Misdirected | src/slab.c:230-269 | a pointer that is then recorded into the new page points into the page of the first entry when the container is mapped again |
| SlabRuns.SecondContainer | src/slab.c:17-21 | the first entry of a second container in a process: its id leads to an entry that is not initialised, or through a page that does not exist |
| Slab.Slab.InsertPointer | src/slab.c:276-315 | the value at the location is recorded behind the other records of its page as the id of an entry and an offset, or as NULL, and no other entry changes; at its last value the 16-bit index wraps to 0; all records lie inside their pages afterwards if and only if they did before and the entry had fewer than 341; a location or a target outside the data pages is an error and records nothing |
| SlabCells.RecordFits | src/slab.c:299-311 | the condition for that, which can be checked before the call |
| SlabPtrs.InPageExact | src/slabInt.h:21-28 | the declared array is longer than the page: records lie inside the page up to the 341st, and inside the array up to the 512th |
| SlabPtrs.SurvivesExact | src/slab.c:276-315 | whatever memory lies behind the record page, all that was recorded is found again when the page is mapped if and only if all records lie inside it |
| SlabPtrs.Overrun | src/slab.c:299-311 | inputs for which it is not, at every greater number that the 16-bit index can count: a pointer comes back as NULL, and a word that was never recorded is overwritten |
| SlabRuns.Overfill | src/slab.c:276-315 | do_insert_pointer reaches those inputs: a location of the first entry is recorded 341 times as NULL and then as a pointer |
| SlabPtrs.NullApart | src/slabInt.h:14-16 | the NULL record is the record of no pointer into a page |
| SlabPtrs.FixPageAt | src/slab.c:252-264 | of several records for one location the last one wins, and no other word changes |
| SlabPtrs.FixAllAt | src/slab.c:237-268 | the records of different pages do not disturb each other |
| SlabPtrs.FixAllOutside | src/slab.c:237-268 | no word outside the data pages changes |
| Slab.Slab.FixPtrs | src/slab.c:230-269 | the loops over the four levels follow every record exactly once, in the order of the ids |
| Slab.Slab.Restore | src/slab.c:230-269 | for any placement of the data pages at other addresses that do not overlap, every recorded location ends up pointing to the same offset of the page that the id of its target leads to; that is the page of the target if and only if get_slab_entry_by_id of the id is the target, so of every target if every entry is found by its id; every other word, in the data pages or outside them, is as it was mapped |
| SlabCells.RewrittenExact | src/slab.c:252-264 | the value written is the same offset of the target's page if and only if the id of the target leads to the target |
| SlabRuns.RecordAndRestore | src/slab.c:230-315 | a pointer that is recorded and then restored points to the same offset of the page that the id of its target leads to, whichever that is |
| SlabPage.FirstClear | src/utils/bitstring.h:119-135 | the first clear bit below the limit, or -1 if all are set |
| SlabPage.BitSet | src/utils/bitstring.h:38-41 | sets one bit and leaves all others |
| SlabPage.Page.EntryFull | src/alloc.c:5-16 | true exactly if every slot is taken |
| SlabPage.Page.AllocMem | src/alloc.c:18-35 | NULL exactly if the page is full; otherwise the first free slot, which is then taken, and no other; the slot lies inside the page if and only if its size is 512 or more or the bitmap and the slots up to it fit the page |
| SlabPage.SlotsBegin | src/slabInt.h:54-60 | slots of 512 bytes and more begin with the page, smaller ones behind the fewest bytes that hold PAGE_SIZE / size bits, and each is behind the one before |
| SlabPage.CapacityExact | src/slabInt.h:47-53 | as many slots as fit the page, or the page less the bytes that hold as many bits as a slot has bytes |
| SlabPage.OverrunExact | src/slabInt.h:47-60 | at sizes that are multiples of 8 all slots lie inside their page if and only if the size is none of 8, 16, 24 and 56 |
| SlabPage.FirstOverrun | src/slabInt.h:47-60 | of the 511 slots of 8 bytes exactly the first 504 lie inside the page |
| SlabPage.FillOverrun | src/alloc.c:18-35 | allocating from an empty page of 8-byte slots hands out the other 7 as well |
| SlabPage.SlotsApart | src/slabInt.h:47-60 | slots do not overlap each other or the bitmap at the start of the page |
| SlabPage.Fill | src/alloc.c:18-35 | allocating until NULL hands out distinct slots and leaves the page full; from an empty page it hands out slots one behind the other from the start of the data on, as many as CapacityExact says |
| PptrList.Head.constructor | src/fixptr.c:8-18 | an empty list with one inode |
| PptrList.Head.ExtendList | src/fixptr.c:38-51 | a new last inode; what the pages spell stays the same |
| PptrList.Head.GetDnode | src/fixptr.c:67-95 | a data page that is not full, next in order, created if necessary |
| PptrList.Head.SnapshotDnode | src/fixptr.c:20-36 | the current page of the slot is no longer its snapshot page, and both spell what they did |
| PptrList.Head.Append | src/fixptr.c:97-111 | the current pages spell one entry more; the snapshot pages spell the same as before |
| PptrPages.WriteEntry | src/fixptr.c:105-110 | writing to the last current page changes no snapshot |
| PptrList.Head.CPoint | src/fixptr.c:113-132 | every slot's snapshot is its current page, which spells everything appended; the pages freed are exactly the superseded snapshots, and every page still referenced is still allocated |
| PptrPages.OwnToNext | src/fixptr.c:126-127 | the page freed at a slot is the one page whose only use was that slot's superseded snapshot |
| PptrList.Head.MapList | src/fixptr.c:134-164 | all memory addresses are rebuilt from the logical ones, at any new base address, and no logical address changes; with CPOINT_COMPLETE the memory addresses agree with the logical ones if and only if every snapshot page is the current page |
| PptrList.Head.RollForward | src/fixptr.c:113-164 | a checkpoint stopped after any number of slots, a failure, and pptr_map with CPOINT_INCOMPLETE leave the same list, the same pages and the same freed pages as an uninterrupted checkpoint |
| PptrList.Run | src/fixptr.c:97-164 | over any run of appends, checkpoints and torn checkpoints the current pages spell everything appended and the snapshot pages what had been appended at the last checkpoint |
| TplWords.ByteSwap | src/benchmarks/tpl.c:2147-2156 | reverses the bytes of a word in place |
| TplWords.ReadWordIn | src/benchmarks/tpl.c:1638-1640 | a length word is read as the number written, in either byte order |
| TplPack.Tpl.Pack | src/benchmarks/tpl.c:1770-1932 | packs one element of an array, or the root: the new element holds the values and the arrays packed before it, which are empty again, and every node's ser_osz is the serialized size of what it holds |
| TplPack.Tpl.PackSub | src/benchmarks/tpl.c:1869-1887 | a child array moves into the new element together with its size |
| TplFormat.EncValsSplit | src/benchmarks/tpl.c:1081-1146 | the serialized form of values one after the other is the serialized forms one after the other |
| TplFormat.EncLength | src/benchmarks/tpl.c:831-903 | the length of a serialized value does not depend on the byte order |
| TplDump.SerOsz | src/benchmarks/tpl.c:905-976 | the size computed from the sizes bubbled up while packing is the length of the image |
| TplDump.DumpAtyp | src/benchmarks/tpl.c:831-903 | writes exactly the serialized array behind what was there |
| TplDump.DumpToMem | src/benchmarks/tpl.c:1059-1146 | fills a buffer of that size with exactly the image |
| TplSize.Serlen | src/benchmarks/tpl.c:1618-1710 | measures serialized data without reading outside the buffer |
| TplSize.EndInside | src/benchmarks/tpl.c:1631-1706 | a length that is accepted ends inside the buffer |
| TplSize.EndEnc | src/benchmarks/tpl.c:1631-1706 | serialized values of every format are measured as exactly their length, so all three sizes agree |
| TplSanity.ScanFormat | src/benchmarks/tpl.c:1191-1203 | finds the format string, or reports that there is none that ends in the buffer |
| TplSanity.Sanity | src/benchmarks/tpl.c:1164-1230 | accepts a buffer if and only if its preamble is that of the map and its data is measured as exactly the rest, or as no more than the rest if excess is allowed; an accepted buffer has the format string, its NUL and the octothorpe lengths of the map as the writer writes them, and without excess its own length |
| TplSanity.OtherMapRefused | src/benchmarks/tpl.c:1205-1221 | the image of a map with another format string or other octothorpe lengths is refused, also where excess is allowed |
| TplAccept.AcceptedExact | src/benchmarks/tpl.c:1164-1230 | a buffer in the current form without NULs in strings or array counts from 2^31 on is accepted without excess if and only if it is, apart from its flags byte, the image of some values of the format |
| TplAccept.ExcessExact | src/benchmarks/tpl.c:1164-1230 | with excess if and only if behind the magic prefix, flags and length it begins with the format string, the lengths and the serialized form of some values |
| TplAccept.ThreeIntsWritten | src/benchmarks/tpl.c:1059-1146 | the 27 bytes written for three integers under i# |
| TplAccept.ThreeIntsRefused | src/benchmarks/tpl.c:1212-1221 | which the map of i# with length 2 refuses |
| TplSanity.ImageSane | src/benchmarks/tpl.c:1164-1230 | every image is accepted, in either byte order, and with excess bytes behind it if that is allowed |
| TplUnpack.Reader.Load | src/benchmarks/tpl.c:1463-1535 | accepts exactly the buffers that are sane under the flags left by the loads that failed before it; takes the byte order from the flags, and opens the root's arrays at their first elements; a failure leaves the flags of its buffer set |
| TplFlags.LoadAfterFailure | src/benchmarks/tpl.c:1463-1535 | an image that a new tpl loads is refused by one that has refused a buffer of the other byte order before |
| TplUnpack.Reader.UnpackA0 | src/benchmarks/tpl.c:2072-2145 | passes over the root's other children and stays in step |
| TplUnpack.Reader.Unpack | src/benchmarks/tpl.c:1934-2070 | gives the program the next element in packing order, opens the arrays inside it, and answers how many were left; at the end it answers 0 and changes nothing |
| TplDecode.StrRead | src/benchmarks/tpl.c:2009-2026 | NULL and empty strings are kept apart, and every string is read as itself |
| TplUnpack.ReadStr | src/benchmarks/tpl.c:2009-2026 | what is read as a string from a buffer that holds anything |
| TplDecode.ReadableExact | src/benchmarks/tpl.c:1934-2070 | a buffer holds serialized values if and only if its data is inside it, no string has a NUL and every array fewer than 2^31 elements; it then holds those of one value only, the one that is read |
| TplDecode.SaneReadable | src/benchmarks/tpl.c:1164-1230 | so of the buffers in the current form that tpl_sanity accepts exactly the clean ones hold serialized values |
| TplDecode.HugeCountAccepted | src/benchmarks/tpl.c:1630-1639 | an accepted buffer that holds none: tpl_serlen reads a count of 2^31 as negative |
| TplOldForm.OldStringMisread | src/benchmarks/tpl.c:1507-1519 | tpl_load drops the flag for strings of the 1.2 form, so none of them is read as itself: an empty one becomes NULL and any other loses its last byte |
| TplOldForm.OldImageExact | src/benchmarks/tpl.c:1507-1519 | so an image of the 1.2 form is read back as its values if and only if it holds no strings, at any depth |
| TplOldForm.OldImageMisread | src/benchmarks/tpl.c:1507-1519 | an image with the string ab, of which a is read |
| TplOldForm.ReadOldImage | src/benchmarks/tpl.c:1463-1535 | tpl_load accepts that image, and tpl_unpack gives the program a |
| TplRoundTrip.Collect | src/benchmarks/tpl.c:1934-2070 | a loop of tpl_unpack over an array, with loops inside it for the arrays of its elements, gets all elements in order, and the results count n, n - 1, ..., 1, 0 |
| TplRoundTrip.CollectAll | src/benchmarks/tpl.c:1934-2070 | so the whole value is read back through the interface |
| TplRoundTrip.PackAll | src/benchmarks/tpl.c:1770-1932 | and any value can be built through the interface |
| TplRoundTrip.MirrorEnc | src/benchmarks/tpl.c:2147-2156 | an image with every fixed-width word reversed is what a machine of the other kind writes for the same values |
| TplRoundTrip.WrittenImage | src/benchmarks/tpl.c:1059-1146 | the image a machine writes is, for a reader of either kind, an image in some byte order of the reader's values |
| TplRoundTrip.RoundTrip | src/benchmarks/tpl.c:1059-2145 | pack, dump, load and unpack give the same values for every format, every value and every pair of machines |
| TplGather.ScanAppend | src/benchmarks/tpl.c:2408-2438 | looking for images can stop anywhere in a stream and go on with what was left |
| TplGather.Gather.GatherMem | src/benchmarks/tpl.c:2391-2472 | what has been delivered and what is kept depends only on the bytes that have arrived; over the limit or without the magic prefix everything is dropped and reported |
| TplGather.AdvancesExact | src/benchmarks/tpl.c:2422-2438 | the reading loop ends if and only if no image at its front claims to be of length 0 |
| TplGather.EmptyImage | src/benchmarks/tpl.c:2429-2437 | an input on which it does not |
| TplGather.ImageFramed | src/benchmarks/tpl.c:2422-2432 | every image that tpl_dump writes is recognised as one image of its length, by machines of both kinds |
| TplGather.ScanImages | src/benchmarks/tpl.c:2422-2438 | in images one after the other the complete ones are found and the unfinished one is left |
| TplGather.ScanGarbage | src/benchmarks/tpl.c:2422-2432 | images with more than 8 bytes behind them that do not begin with the magic prefix: the images are found and the rest is reported |
| TplGather.GatherGarbage | src/benchmarks/tpl.c:2391-2472 | so the images are delivered, -3 is answered and nothing is kept |
| TplGather.GatherAll | src/benchmarks/tpl.c:2391-2472 | however such a stream is cut, the complete images are delivered once each and in order and exactly the unfinished one is kept |
| Csv.OutputCsv | src/sqlite/shell.c:642-696 | writes a field in quotes, with quotes doubled, exactly if it is empty or holds a character that needs it or what is taken for the separator; then the separator if asked |
| Csv.OutputExact | src/sqlite/shell.c:642-696 | a field is written as it is if and only if it is not empty and each byte is from 33 to 126, no quote of either kind and not the separator |
| Csv.LongSeparator | src/sqlite/shell.c:675-678 | a separator of several bytes causes quotes if and only if the field begins with it |
| Csv.CsvReader.ReadOneField | src/sqlite/shell.c:1954-2009 | reads one field as the state machine says, with its terminator, the lines passed and the complaints; false exactly at the end of the file |
| Csv.ReadBare | src/sqlite/shell.c:1996-2005 | any text without the separator and LF that does not begin with a quote is read as it is, less one CR before LF, whether the separator, LF, CR LF or the end of the file is behind it, with that terminator, position and line count |
| Csv.ReadClosed | src/sqlite/shell.c:1963-1995 | text in quotes with its quotes doubled is read as itself with each of the four ends; a stray quote inside is kept and is a complaint unless CR is behind it |
| Csv.ReadOpen | src/sqlite/shell.c:1963-1995 | a quoted field that never ends is read up to the end of the file, with one complaint more |
| Csv.QuotedPrefix | src/sqlite/shell.c:1965-1995 | from any state inside a quoted field the reader undoes the doubling and never takes a character for the end, whatever the text holds |
| Csv.FieldRoundTrip | src/sqlite/shell.c:1939-2009 | a written field is read back as itself, with any of the four ends as its terminator, and without complaint |
| Csv.ReadRow | src/sqlite/shell.c:1954-2009 | reading until a field is not ended by the separator gives the row, and the rest of the file is next |
| Csv.RoundTrip | src/sqlite/shell.c:642-670 | a row of strings is written and read back (RFC 4180, section 2) |
| CStrings.OutputCString | src/sqlite/shell.c:572-601 | the string in double quotes, every character escaped so that nothing in it ends the literal |
| CStrings.EscapeExact | src/sqlite/shell.c:572-601 | the bytes written for each byte: two for backslash, double quote, TAB, LF and CR, a backslash and its three octal digits for any other that is not printable ASCII, and itself otherwise |
| CStrings.EscapeRead | src/sqlite/shell.c:1753-1783 | the escape of any character, followed by anything, is read as that character and no more; three octal digits are never joined by a fourth |
| CStrings.ResolveEscaped | src/sqlite/shell.c:1753-1783 | unescaping undoes escaping |
| CStrings.ResolveCharacter | src/sqlite/shell.c:1753-1783 | what is read for every character, alone or behind a backslash |
| CStrings.ResolveOctal | src/sqlite/shell.c:1753-1783 | what is read for one, two and three octal digits behind a backslash: their value, cut to a byte |
| CStrings.ResolveBackslashes | src/sqlite/shell.c:1753-1783 | rewrites the string in place to its unescaped form and touches nothing before it or from its old end on |
| CStrings.WellEscapedExact | src/sqlite/shell.c:1753-1783 | no backslash stands alone at the end of a string if and only if the number of backslashes there is even |
| CStrings.StopsExact | src/sqlite/shell.c:1753-1783 | the scan of resolve_backslashes comes to the NUL of the string if and only if none does |
| CStrings.LoneBackslash | src/sqlite/shell.c:1753-1783 | a backslash alone: the scan goes on behind the NUL |
| CTokens.EscapedEnd | src/sqlite/shell.c:2260-2263 | the tokenizer finds the closing quote of a printed string, whatever the string holds |
| CTokens.Tokenize | src/sqlite/shell.c:2252-2274 | cuts a line into at most 50 strings in place: each argument points to the text of its token, and a later token does not disturb an earlier one |
| CTokens.TokenizeLine | src/sqlite/shell.c:2252-2274 | for any line of printed literals, texts in single quotes and bare words in any mix, with any white space between them and the last quote closed or not, the arguments are, up to 50, the printed strings, the texts with their backslashes, and the words unescaped |
| CTokens.LineTokens | src/sqlite/shell.c:2252-2274 | the same for the tokens from any position on, as far as there is room |
| CTokens.EscapedWord | src/sqlite/shell.c:2268-2272 | an escaped string without blanks and without a quote in front can be such a word, and is read as it was |
| CTokens.TabWord | src/sqlite/shell.c:2268-2272 | in the line `.s \t` the second argument is one TAB |
| CTokens.TokensJoined | src/sqlite/shell.c:2252-2274 | the tokens of printed strings with single spaces between them are those strings |
| CTokens.RoundTrip | src/sqlite/shell.c:572-601 | any list of at most 50 strings without NUL, printed on a line, is recovered exactly |

## Left out

- SplayMap.Remove: needs that at most one node compares equal, which the range comparison gives on disjoint allocations.
- Htable.HTable.Insert: the mask hash & (length - 1) is written as the remainder by the length, which is a power of two; counters do not wrap around at 32 bits.
- FixMapper.FixedMapper.FreePages: the page must be in use; the source does not check, and FreeExact and InsertExact say what becomes of the free list otherwise.
- Closure.State.MoveVolatileAllocations: one run, over disjoint non-empty allocations that are disjoint from container memory; memory is addressed by words, and where container_palloc places an allocation is a parameter. Of the pages it adds only the words handed out are known. The second phase over dirty slab entries, which can append to the vector after the loop, is not modelled.
- Slab.Slab.NewEntry: snapshots of the slab pages are not modelled, and the lists of entries by size are left out.
- Slab.Slab.InsertPointer: every address holds a word of its own: locations closer to each other than the width of a pointer, or a pointer across the end of a page, are not modelled. The model keeps a record that is written past its page and does not follow what it overwrites there; SurvivesExact says for any contents of that memory when the records are found again.
- Slab.Slab.Restore: needs all records inside their pages, and every recorded id below the number of entries, modulo the capacity: any other is looked up through a page that does not exist, which the source dereferences. The size of a record is that of a uint32_t aligned to four bytes, 12.
- PptrList.Head.CPoint: a failure is modelled between slots, not between the writes to one slot; after a failure the allocator is taken to know which pages are in use.
- TplPack.Tpl.Pack: the format string is not parsed: a format is its tree, with S(...) and S(...)# written out. Lengths fit 31 bits and strings have no NUL. The data of root leaves is NULL until the root is packed, so the root is packed before a dump.
- TplUnpack.Reader.Load: a buffer that is accepted must be readable, as ReadableExact says. The tpl is as it was mapped, or has been loaded, or has refused buffers.
- TplGather.Gather.GatherMem: needs that no image claims to be of length 0, as AdvancesExact says. The callback does not abort.
- Csv.RoundTrip: the separator is one ASCII byte that is not a quote, CR or LF; the reader takes no longer one.
- CTokens.Tokenize: no token that is unescaped ends in a lone backslash, as WellEscapedExact and StopsExact say: the source would take the NUL for the escaped character and read on behind the token.
- Pages that the allocator hands out are taken to be zeroed, as the slab and the pointer list rely on; the allocators do not clear recycled pages.
- End-to-end crash consistency of the slab snapshot, checkpoint and restore path (`src/snapshot.c`, `src/checkpoint.c`, `src/restore.c`, `src/cont.c`).
- slab_setroot, slab_getroot, and the order of full entries in the lists by size.
- SPLAY_NEXT, SPLAY_MIN_MAX, RB_AUGMENT (empty in the source) and the `_SAFE` and `_REVERSE` loops.
- bit_ffs, bit_fls, bit_nset, bit_nclear and _bit_nsearch: only bit_test, bit_set and bit_ffc are used by the modelled code.
- tpl: varargs, struct padding, allocation hooks, files and descriptors, tpl_peek and tpl_jot.
- mmap, mprotect, posix_fallocate, remap_file_pages, signals, cache flushes, environment variables, logging and statistics.
- The growth of the CSV reader's buffer in csv_append_char; the buffer is a sequence.
- The rest of the SQLite shell, the benchmarks and the tests.
