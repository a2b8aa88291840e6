# Memory and process management of a small RISC-V kernel, verified

A model, in Dafny, of the memory and process managers of the ucore teaching kernel (lab 4):
the SLOB heap, the first-fit page allocator, the Sv39 page tables with their reference
counts, the process table with its PID allocator and scheduler, the list of virtual memory
areas, the device-tree scan and the formatted printing. Run `dafny verify dfyconfig.toml`
to check everything.

## How it is laid out

Every allocator or table comes in two layers. A `...Spec` module describes it over plain
values and proves what every step and every run keeps; a class or a set of methods then does
what the C code does, field by field and loop by loop, and each method is proved to perform
one step of the specification.

| module | what it holds |
|---|---|
| `BlockList` | address-ordered lists of free blocks that neither overlap nor touch; carving and releasing; such a list is determined by the set of cells it covers |
| `SlobSpec`, `KmallocSpec`, `SlobHeap` | the SLOB ring, kmalloc and kfree: steps, runs, and the code over memory words |
| `NextFit` | what the place left in `slobfree` means for the next request |
| `HeapAccounts` | what one kmalloc costs and its kfree gives back, in bytes, units and pages |
| `HeapOnPages` | kmalloc and kfree on top of the page allocator, beside other users of pages |
| `LinkList` | the circular doubly linked list of `libs/list.h` over an array of cells |
| `FirstFitSpec`, `FirstFit`, `FirstFitCases` | the first-fit page allocator: steps, runs, and the code over page descriptors and links; what torn blocks lead to |
| `PageEntries`, `PageTableSpec`, `PageTable`, `PageUsers` | entries, the walk, reference counts; the operations; counts in terms of virtual pages |
| `ProcSpec`, `ProcTable` | PIDs, the PID hash, round robin; fork, lookup and scheduling |
| `Vma` | the area list with its one-entry cache |
| `DtbSpec`, `Dtb` | tokens and trees of the flattened format (section 5.4 of the Devicetree Specification, version 0.4); the scan over bytes |
| `DtbMemory` | what a tree says about memory, in text and big-endian words |
| `Wrappers` | optional values and error codes |
| `NumText`, `PrintfSpec`, `Printf` | printed and parsed numbers; the meaning of a format; printing into a buffer |
| `StrtolLaws`, `PrintfLaws` | what strtol reads of any text, and what each conversion prints, in terms of characters and numbers |

Modelling conventions:

- SLOB addresses count 16-byte units and memory is two words per unit, so free-block headers
  and big-block nodes overlay each other as they do in C. The static `arena` is unit 1, below
  every heap page and not adjacent to one.
- Pages are named by frame number; page `p` owns link cell `p`, and the list head is the cell
  after the last page. Entries and addresses are numbers, with masks and shifts written as
  arithmetic, truncated to 64 bits where the C expression truncates.
- What another subsystem answers (a page, a page run, a record, a stack) is a parameter, and
  failure is one of its values. A failed `assert` or a `panic` is an outcome that ends the run.
- Each section protected by disabled interrupts is one atomic step on a single hart.
- Sequences stand for the process and area lists; the page allocator keeps its real links.

## Where the code departs from what it is for

- The insertion loop of the page allocator has no `break` after a tail append
  (`kern/mm/default_pmm.c:89-91`, `:148-150`), so it meets the block it has just added and adds
  it behind itself: that block becomes *torn*, its own `prev`, and is not joined with a
  neighbour it touches. From a valid list, `FreePages` keeps the full invariant if and only if
  the insertion is not at the tail (`NotTail`; `TailExample` is a smallest failing case). Torn
  blocks are part of the state: further tail appends, insertions and allocations elsewhere go on
  as specified. A torn block that is allocated stays on the list with its size (`StuckLinked`),
  so the next request that finds nothing lower gets the same pages (`AllocTwice`,
  `SamePagesTwice`). An insertion directly below a torn block makes every walk along the list
  endless (`TornAddBefore`, `CaughtForEver`, `EndlessList`). `AllocPages` and `FreePages` say so
  case by case.
- `find_order` halves a size rounding down (`kern/mm/kmalloc.c:220-226`), so the page run falls
  short for sizes strictly between 4096 * 2^k and 4097 * 2^k; and the size is passed as an
  `int`, so from 2^31 on it is lost. `RunCovers` gives the exact condition, `RunTooSmall` the
  case of 8193 bytes.
- Sizes 4064 to 4079 take the small branch of `kmalloc` and then fail the assertion at
  `kern/mm/kmalloc.c:99` (`RejectedSizes`).
- A one-unit request, which is what `kmalloc(0)` makes, is served from the static `arena` exactly
  when `slobfree` is on the last block of the ring (`OneUnitTakesArena`); exactly then kmalloc
  breaks the heap invariant (`OneUnitKeepsRing`, `MallocKeepsInv`); from the start, two such
  requests get the same pointer (`SamePointerTwice`). Otherwise the request is safe, but the
  pointer lies behind the object's only unit and may be that of a page run. `kfree` of a small
  object releases that object if and only if it has a byte in it or its pointer is not that of a
  page run; otherwise it frees the run (`PointerNamesOne`). A run of four calls leads there
  (`EmptyObjectClash`).
- The comment at `kern/mm/kmalloc.c:24-29` speaks of 8-byte headers and of page-size requests;
  the unit is 16 bytes and the big branch starts at 4080 bytes. The model follows the code.
- `get_pte` takes every valid upper entry for a table pointer, although the boot directory has a
  huge leaf (`kern/init/entry.S:63`). The operations therefore require `NoHuge` on their own
  walk, and only there; in the boot directory that excludes exactly the walks through its last
  entry (`BootLeafIsHuge`).
- The comment on `page_insert` promises 0 always. The code returns 0 if and only if there are as
  many free pages as tables missing on the walk, two, one or none, and else `-E_NO_MEM`
  (`PageInsert`; `InsertWithoutMemory` is a failing case).
- The device-tree scan keeps one flag, which a memory node lends to its chain of first children.
  It finds what is wanted, whatever the properties, if and only if no memory node has a first
  child that is not one (`RightExactlyWithoutStray`). `FoundIsLentOrWanted` describes the answer
  on the other trees, `StrayChild` a failing case.
- `vprintfmt` goes back to behind the percent sign on an unknown conversion, but arguments read
  by `*` stay consumed: the arguments behind it are as they were if and only if no star stands
  among the flags (`UnknownPrintsLiterally`, `StarStaysConsumed`).
- The comment at `libs/printfmt.c:139` has the flag '-' pad on the right. It does so for `%s`
  alone (`StringShown`); a number gets minus signs in front of its digits (`UnsignedText`). In `%d` the sign stands in front of the
  padding (`SignedText`). A zero behind the dot is taken for the flag, so a precision of zero can
  only be given by a star.
- `strtol` is documented to take the prefix "0X" in base 16. It does what the comment says if and
  only if the number does not start with "0X" in base 16; there it reads the digit 0 and stops
  (`DocumentedUnlessUpperPrefix`, `UpperPrefixFails`).

## Model

| member | source | states |
|---|---|---|
| `BlockList.CarveCells` | kern/mm/kmalloc.c:127-135 | taking n units from a block removes exactly those n cells from the free set and n from the total |
| `BlockList.ReleaseSeparated` | kern/mm/kmalloc.c:174-188 | a block put back, joined with whichever neighbours it touches, leaves a sorted list with no two blocks overlapping or touching |
| `BlockList.ReleaseCells` | kern/mm/kmalloc.c:174-188 | putting a block back adds exactly its cells to the free set, whichever neighbours are joined |
| `BlockList.RunInsideBlock` | kern/mm/default_pmm.c:102-109 | in a coalesced list a run of consecutive free cells lies in one block |
| `BlockList.Canonical` | kern/mm/default_pmm.c:155-173 | two coalesced lists with the same free cells are the same list |
| `BlockList.TotalIsCount` | kern/mm/default_pmm.c:79 | the sum of block sizes is the number of free cells |
| `SlobSpec.StartOk` | kern/mm/kmalloc.c:76-78 | the initial ring, the arena alone, satisfies the heap invariant |
| `SlobSpec.FirstFitUnique` | kern/mm/kmalloc.c:105-118 | the block that the moving-start search stops at is determined by ring, start and size |
| `SlobSpec.FitByAddress` | kern/mm/kmalloc.c:105-118 | the search hands out the lowest fit above slobfree, or if there is none the lowest fit of all |
| `SlobSpec.OneUnitTakesArena` | kern/mm/kmalloc.c:105-118 | a one-unit request gets the arena exactly when slobfree is the last block |
| `SlobSpec.FitSkipsArena` | kern/mm/kmalloc.c:105-118 | a request stops above the arena exactly if it is for two units or more, or slobfree is not on the last block |
| `SlobSpec.OneUnitKeepsRing` | kern/mm/kmalloc.c:105-139 | a one-unit request keeps ring and tiling if and only if slobfree is not on the last block |
| `SlobSpec.TakenTiles` | kern/mm/kmalloc.c:127-139 | slob_alloc keeps the ring circular, sorted and uncoalescible, and free plus live units still tile arena and heap pages, the new block overlapping nothing |
| `SlobSpec.ReturnedTiles` | kern/mm/kmalloc.c:158-194 | slob_free of a live block keeps the tiling, with exactly that block no longer live |
| `SlobSpec.GrownTiles` | kern/mm/kmalloc.c:148-154 | giving a fresh page to slob_free keeps the tiling, with that page added |
| `SlobHeap.Slob.FindSlot` | kern/mm/kmalloc.c:170-172 | the reinsertion search of slob_free ends, from any slobfree and across the wrap, at the block just below |
| `SlobHeap.Slob.Relink` | kern/mm/kmalloc.c:174-188 | the writes of slob_free turn the ring in memory into the ring with the block released, touching two cells only |
| `SlobHeap.LinkRelease` | kern/mm/kmalloc.c:174-188 | the words written around the insertion point hold the released ring in all four cases of joining |
| `SlobHeap.Slob.SlobFree` | kern/mm/kmalloc.c:158-194 | null does nothing; otherwise memory holds a valid ring with the block put back, slobfree lies below b with no free block between the two, and no word outside the free blocks changes |
| `SlobHeap.Slob.Lap` | kern/mm/kmalloc.c:104-142 | one lap finds the first fit after slobfree, or shows that no block fits |
| `SlobHeap.Slob.Take` | kern/mm/kmalloc.c:127-139 | unlinking or fragmenting hands out the first fit with its size in the header, slobfree on the block before, across the wrap too |
| `SlobHeap.Slob.SlobAlloc` | kern/mm/kmalloc.c:97-156 | terminates; asks for at most one page, and for one exactly when nothing fits; fails exactly when that page is refused, changing nothing; else takes the first fit, leaves slobfree just below it, and the address is that of the lowest fit above slobfree or else of the lowest |
| `SlobHeap.Slob.Grow` | kern/mm/kmalloc.c:148-154 | after a page has joined the ring, merged or not, some block fits |
| `SlobHeap.Slob.constructor` | kern/mm/kmalloc.c:76-78 | the static initial values hold the initial heap |
| `SlobHeap.Slob.FindOrder` | kern/mm/kmalloc.c:220-226 | the loop computes the order characterised by OrderIsLeast |
| `KmallocSpec.OrderIsLeast` | kern/mm/kmalloc.c:220-226 | find_order returns the least k for which size >> k is at most 4096 |
| `KmallocSpec.OrderShortfall` | kern/mm/kmalloc.c:220-226 | the run falls short by less than 2^k bytes, and exactly for sizes strictly between 4096 * 2^k and 4097 * 2^k |
| `KmallocSpec.RunCovers` | kern/mm/kmalloc.c:243-244 | for every 64-bit size, the page run is large enough if and only if the size is below 2^31 and in no such gap |
| `KmallocSpec.RunTooSmall` | kern/mm/kmalloc.c:220-226 | 8193 bytes get 8192 |
| `KmallocSpec.RejectedSizes` | kern/mm/kmalloc.c:234-236 | kmalloc runs into the assertion of slob_alloc exactly for sizes 4064 to 4079 |
| `KmallocSpec.ObjectIsLargeEnough` | kern/mm/kmalloc.c:236-237 | a small object holds the requested bytes behind its header |
| `KmallocSpec.MallocKeepsInv` | kern/mm/kmalloc.c:228-258 | kmalloc of any size, whatever the page allocator answers, keeps the heap invariant if and only if the request is not for no bytes with slobfree on the last block |
| `KmallocSpec.SamePointerTwice` | kern/mm/kmalloc.c:105-139 | from the start, two requests of no bytes get the same pointer, whatever the page allocator offers |
| `KmallocSpec.FreeKeepsInv` | kern/mm/kmalloc.c:266-294 | kfree of any pointer in use keeps the heap invariant |
| `KmallocSpec.RunKeepsInv` | kern/mm/kmalloc.c:228-294 | every state of every run of kmalloc, on accepted sizes, and kfree, on pointers in use, satisfies the invariant |
| `KmallocSpec.Conservation` | kern/mm/kmalloc.c:228-294 | free units plus live units are 256 for each page obtained |
| `KmallocSpec.RunSafety` | kern/mm/kmalloc.c:228-294 | in every such run, live blocks overlap neither each other nor the free ring, the ring stays sorted and coalesced, and no unit is lost |
| `KmallocSpec.PointersDiffer` | kern/mm/kmalloc.c:274-292 | a small object with a byte in it never has the address of a page run, even when page-aligned |
| `KmallocSpec.EmptyObjectClash` | kern/mm/kmalloc.c:274-288 | a run of kmalloc(4020), kmalloc(4096), kmalloc(0) and one kfree after which the object of no bytes has the pointer of the page run, and kfree frees the run |
| `KmallocSpec.PointerNamesOne` | kern/mm/kmalloc.c:266-294 | kfree of a small object releases that object, and hands back no pages, if and only if the object has a byte in it or its pointer is not that of a page run |
| `KmallocSpec.FreeUndoesMalloc` | kern/mm/kmalloc.c:228-294 | kfree right after a kmalloc served from the ring restores the same free list, objects and pages |
| `NextFit.AfterFree` | kern/mm/kmalloc.c:158-194 | after a block at b has been put back, joined or not, the next request gets the lowest fit from b on, or else the lowest of all |
| `NextFit.FreedIsNext` | kern/mm/kmalloc.c:158-194 | after a free that joins nothing below, the next request that the freed block can serve, alone or with the free block behind it, gets the address just freed |
| `NextFit.AfterTake` | kern/mm/kmalloc.c:126-139 | after a request that got a, the next one gets the lowest fit above a, or else the lowest of all |
| `NextFit.RemainderIsNext` | kern/mm/kmalloc.c:126-139 | after a split at a, the next request that the remainder can serve gets a plus the units taken |
| `NextFit.FreedComesBack` | kern/mm/kmalloc.c:228-294 | kfree and then kmalloc of a size with room there returns the pointer just freed, without a page, if no free block ends where the object starts |
| `HeapAccounts.SmallObject` | kern/mm/kmalloc.c:234-238 | a small request gets the fewest units that hold 16 bytes of header and its own, the bytes lie inside, and free units plus 256 for each new page fall by exactly those |
| `HeapAccounts.BigObject` | kern/mm/kmalloc.c:240-257 | a big request gets the address of its page run and costs two units |
| `HeapAccounts.RunGivenBack` | kern/mm/kmalloc.c:274-286 | kfree right after a big kmalloc hands back its 2^order pages from the first on, and the two units |
| `SlobHeap.Slob.Kmalloc` | kern/mm/kmalloc.c:228-258 | on every size performs exactly one kmalloc step in memory and leaves every word of every live object alone; slobfree is left just below a small object; the invariant of ring, headers and big-block list is kept if and only if the request does not get the arena |
| `SlobHeap.Slob.KmallocSmall` | kern/mm/kmalloc.c:234-238 | the small branch returns the unit behind a first-fit block, or null when the heap cannot grow |
| `SlobHeap.Slob.KmallocBig` | kern/mm/kmalloc.c:240-257 | the big branch chains a node for the run, or gives the node back when there is no run |
| `SlobHeap.Slob.Record` | kern/mm/kmalloc.c:243-252 | writing the node's fields over former free-block words disturbs no header, node or free block |
| `SlobHeap.Slob.Kfree` | kern/mm/kmalloc.c:266-294 | on every pointer in use, and null, releases exactly what it names, gives back exactly the pages of a run, leaves slobfree just below a small object, and changes no word of any other object |
| `SlobHeap.Slob.FindBig` | kern/mm/kmalloc.c:266-288 | the scan finds the node of a page run and the link that leads to it, or shows there is none |
| `SlobHeap.Slob.KfreeBig` | kern/mm/kmalloc.c:279-286 | a big block leaves the list, its node returns to the ring, its 2^order pages are handed back |
| `SlobHeap.Slob.Unlink` | kern/mm/kmalloc.c:271-281 | the write through `last` takes exactly the one node off the chain |
| `SlobHeap.Slob.KfreeSmall` | kern/mm/kmalloc.c:292 | the size in the header is the size of the object, and that much is released |
| `SlobHeap.Slob.ClientStore` | kern/mm/kmalloc.c:237 | a client writing anything into its payload leaves ring, headers and big-block list intact |
| `SlobHeap.Slob.Ksize` | kern/mm/kmalloc.c:296-317 | the bytes of the block a pointer names, header included, or of its page run; 0 for null |
| `SlobHeap.PointersUnambiguous` | kern/mm/kmalloc.c:266-317 | a pointer in use names one small object at most and one page run at most, and both exactly for an object of no bytes in front of a run |
| `HeapOnPages.AnswersAreFair` | kern/mm/kmalloc.c:80-93 | pages and runs that the first-fit allocator answers clash neither with what the heap uses nor with each other |
| `HeapOnPages.MallocAgrees` | kern/mm/kmalloc.c:228-258 | kmalloc with its own page requests keeps heap invariant, page accounting and their agreement |
| `HeapOnPages.FreeUses` | kern/mm/kmalloc.c:266-294 | kfree gives up exactly the pages of the run it frees |
| `HeapOnPages.FreeAgrees` | kern/mm/kmalloc.c:266-294 | kfree keeps the agreement |
| `HeapOnPages.RunAgrees` | kern/mm/kmalloc.c:80-294 | in every run of kmalloc, kfree and other users of pages, the heap invariant holds, pages are free or held and never both, and the heap's pages are held |
| `LinkList.ListAddBetween` | libs/list.h:141-146 | performs the four link writes in order, also when cells coincide |
| `LinkList.ListAdd` | libs/list.h:53-56 | adds behind the given cell |
| `LinkList.ListAddBefore` | libs/list.h:66-69 | adds in front of the given cell |
| `LinkList.ListDel` | libs/list.h:91-94 | links the two neighbours to each other |
| `LinkList.AddedLinked` | libs/list.h:141-146 | adding a new cell between neighbours, the upper one not torn, yields the list with that element inserted, other torn nodes or not |
| `LinkList.DeletedLinked` | libs/list.h:154-158 | deleting a node that is not torn yields the list without it, and mends the node behind it |
| `LinkList.AppendedTwice` | kern/mm/default_pmm.c:148-150 | appending and then adding the cell behind itself gives the right forward chain with the new cell torn, whatever was torn before |
| `LinkList.TornAddBefore` | kern/mm/default_pmm.c:145-147 | adding in front of a torn node links the two to each other |
| `LinkList.CaughtForEver` | kern/mm/default_pmm.c:103 | from then on no number of steps along the list leads back to its head |
| `LinkList.TornDelete` | libs/list.h:154-158 | deleting a torn node leaves it on the list and mends the node behind it |
| `FirstFitSpec.FirstFitIsLowestRun` | kern/mm/default_pmm.c:102-109 | first fit returns the lowest page where n consecutive pages of the free set start |
| `FirstFitSpec.NoFitIsNoRun` | kern/mm/default_pmm.c:96-124 | no block fits exactly when the free set holds no run of n pages |
| `FirstFitSpec.LargestAtMostTotal` | kern/mm/default_pmm.c:99-101 | no block is larger than nr_free, so the early exit loses nothing |
| `FirstFitSpec.AllocKeepsArea` | kern/mm/default_pmm.c:96-124 | allocation keeps the list sorted and disjoint from everything held, holds n more pages, and keeps a coalesced list coalesced |
| `FirstFitSpec.FreeKeepsArea` | kern/mm/default_pmm.c:126-174 | freeing any range of held pages keeps that too; a coalesced list without torn blocks stays one if and only if the insertion is not at the tail |
| `FirstFitSpec.TailExample` | kern/mm/default_pmm.c:148-150 | page 1 freed next to the free page 0 is listed unjoined and torn |
| `FirstFitSpec.RunKeepsArea` | kern/mm/default_pmm.c:96-174 | in every run of allocations and of frees of any held ranges, tail appends included, no page is held twice and free plus held pages are always the same pages; until a tail append the list is coalesced and linked both ways |
| `FirstFitSpec.FreeUndoesAlloc` | kern/mm/default_pmm.c:96-174 | freeing what was just allocated, not at the tail, restores the identical state |
| `FirstFitSpec.UndoNotTail` | kern/mm/default_pmm.c:112-118 | that free is not a tail insertion exactly when there is a remainder, a higher free block, or nothing else free |
| `FirstFit.FreeArea.constructor` | kern/mm/default_pmm.c:62-66 | an empty, valid free area |
| `FirstFit.InsertSorted` | kern/mm/default_pmm.c:80-93 | the insertion loop terminates and inserts in address order; the block is torn exactly when it goes behind the last one, and the list is caught exactly when it goes directly below a torn one |
| `FirstFit.FreeArea.InitMemmap` | kern/mm/default_pmm.c:68-94 | on any list, torn or not, lists the block, its first descriptor with flag and size, the others all zero, torn exactly at the tail, or gets caught directly below a torn block; the full invariant is kept exactly when it is not at the tail and touches no neighbour |
| `FirstFit.FreeArea.Search` | kern/mm/default_pmm.c:103-110 | finds the lowest fit, or the head exactly when nothing fits |
| `FirstFit.FreeArea.AllocPages` | kern/mm/default_pmm.c:96-124 | on any list that can be walked: the first node with a recorded size of n or more, unless nr_free is less; on a list that agrees with its blocks, NULL exactly when none has n pages, else the lowest fit, carved as the specification says, with links, flags, sizes and nr_free in agreement and no page's count or reservation changed; a torn block stays listed with its size |
| `FirstFit.FreeArea.Detach` | kern/mm/default_pmm.c:111-122 | the unlinking and the remainder keep links, descriptors and count in agreement, and mend the block behind; a torn block stays listed, with the remainder behind it |
| `FirstFit.StuckLinked` | kern/mm/default_pmm.c:111-118 | taking pages from a torn block does not unlink it; the remainder follows it |
| `FirstFit.FreeArea.FreePages` | kern/mm/default_pmm.c:126-174 | on any list performs the freeing step of the specification, with both merges, or listed unmerged and torn at the tail; directly below a torn block the list is caught; the full invariant is kept if and only if the insertion is not at the tail; the pages freed are unreferenced and not reserved, all others keep count and reservation |
| `FirstFit.FreeArea.JoinBelow` | kern/mm/default_pmm.c:155-164 | merges with the block below exactly if that ends at base and base is not torn |
| `FirstFit.FreeArea.JoinAbove` | kern/mm/default_pmm.c:166-173 | merges with the block above exactly if that starts where base ends |
| `FirstFit.CarvedRep` | kern/mm/default_pmm.c:111-122 | links, descriptors and nr_free after an allocation represent the carved list |
| `FirstFit.JoinedRep` | kern/mm/default_pmm.c:155-173 | links, descriptors and nr_free after a merge represent the list with two blocks joined |
| `FirstFit.FreedIs` | kern/mm/default_pmm.c:155-173 | listing a block and then merging on both sides is the freeing step of the specification |
| `FirstFitCases.AllocTwice` | kern/mm/default_pmm.c:96-124 | on any list whose first fit is torn, a second request that finds nothing lower is given the same page |
| `FirstFitCases.SamePagesTwice` | kern/mm/default_pmm.c:96-174 | an instance reached from an empty allocator: two requests for two pages both get page 2 |
| `FirstFitCases.EndlessList` | kern/mm/default_pmm.c:126-174 | an instance reached from an empty allocator: freeing page 2 below torn pages 3 to 5 makes the list endless |
| `PageEntries.EntryRoundTrip` | kern/mm/pmm.h:170-173 | reading back an entry gives the page number and flags it was made from, V set, for every 44-bit page number, the number above bit 10 and the address 4096 times it |
| `PageEntries.VpnNamesPage` | kern/mm/mmu.h:28-35 | two addresses share their three indices exactly when bits 38 to 12 agree |
| `PageEntries.VpnDigits` | kern/mm/mmu.h:28-35 | the three indices are the digits in base 512 of bits 38 to 12 of the address |
| `PageTableSpec.WalkByBits` | kern/mm/pmm.c:223-257 | what an address translates to, by its bits 38-30, 29-21 and 20-12 and the bits V, R, W and X of the entries |
| `PageTableSpec.ReachesOnce` | kern/mm/pmm.c:223-257 | different virtual pages end at different entries |
| `PageTableSpec.WriteTranslates` | kern/mm/pmm.c:284-291 | a write to the entry of v changes the translation of v and of nothing else |
| `PageTableSpec.RewriteKeepsInv` | kern/mm/pmm.c:277-339 | overwriting an entry with the matching count changes keeps every reference count right and frees only pages nothing maps |
| `PageTableSpec.RemoveIsRewrite` | kern/mm/pmm.c:277-293 | page_remove_pte makes exactly those count changes |
| `PageTableSpec.InsertIsRewrite` | kern/mm/pmm.c:322-336 | so does page_insert behind get_pte, in all three cases: empty, same page, other page |
| `PageTableSpec.OrphanIsUnmapped` | kern/mm/pmm.c:284-289 | the page freed is the one whose only mapping was overwritten |
| `PageTableSpec.TableKeepsInv` | kern/mm/pmm.c:226-238 | installing an empty table page with count 1 keeps the tree and the counts |
| `PageTableSpec.TableTranslates` | kern/mm/pmm.c:226-238 | and changes no translation |
| `PageUsers.ReachedFrom` | kern/mm/pmm.c:223-257 | every last-level table is reached by the walk of some virtual page |
| `PageUsers.RefIsUsers` | kern/mm/pmm.c:277-339 | the reference count of a data page is the number of virtual pages mapped to it |
| `PageUsers.OnlyDataUsed` | kern/mm/pmm.c:277-339 | no virtual page is mapped to a free page or to a table page |
| `PageUsers.LastIsOnlyUser` | kern/mm/pmm.c:284-289 | a page loses its last mapping with v exactly when v is its only user |
| `PageTable.PageDirectory.constructor` | kern/init/entry.S:57-63 | a directory whose only valid entries are huge leaves, with all managed pages free, satisfies the invariant |
| `PageTable.BootLeafIsHuge` | kern/init/entry.S:57-63 | in the boot directory a walk meets a huge leaf exactly if it goes through entry 511 |
| `PageTable.PageDirectory.AllocPage` | kern/mm/pmm.c:229 | hands out a free page, keeping the invariant, or nothing when there is none |
| `PageTable.PageDirectory.EnsureTable` | kern/mm/pmm.c:225-238 | one level of get_pte either finds a table pointer, adds one empty table, or changes nothing |
| `PageTable.PageDirectory.GetPte` | kern/mm/pmm.c:223-257 | returns the entry at which the walk of la ends; without create nothing changes and failure means an invalid upper entry; with create it succeeds if and only if there are as many free pages as tables missing, and takes exactly those it needs; every upper entry is bit for bit as before, or was invalid and now has the low ten bits 0x11 and the number of a page that was free; last-level entries are as before, zeros in a new table; no translation or data count ever changes |
| `PageTable.PageDirectory.GetPage` | kern/mm/pmm.c:260-272 | the page that la translates to, or none |
| `PageTable.PageDirectory.PageRemovePte` | kern/mm/pmm.c:277-293 | clears a valid entry, drops the count and frees the page at zero; does nothing to an invalid entry |
| `PageTable.PageDirectory.PageRemove` | kern/mm/pmm.c:297-305 | map delete: la becomes unmapped, its entry zero if it was valid and every other entry of every table bit for bit as before, other virtual pages translate as before, and a data page is freed exactly when la was its last mapping |
| `PageTable.PageDirectory.PageInsert` | kern/mm/pmm.c:315-339 | returns 0 if and only if there are as many free pages as tables missing; then la translates to the page with the permissions, everything else as before, the old page freed exactly at its last mapping; failing changes no translation and no data count; the pages that become tables are those missing, taken from the free ones; upper entries change as in GetPte, last-level ones but for that of la not at all |
| `PageTable.InsertWithoutMemory` | kern/mm/pmm.c:318-321 | on a machine with one page, mapping it fails |
| `ProcSpec.NextUnusedUnique` | kern/process/proc.c:128-168 | the first unused PID in cyclic order after last_pid is unique |
| `ProcSpec.NextUnusedByOrder` | kern/process/proc.c:128-168 | that is the least unused PID above last_pid, or if there is none the least of all, in 1 to 8191 |
| `ProcSpec.SomePidUnused` | kern/process/proc.c:131 | with fewer than MAX_PID - 1 PIDs in use there is an unused one |
| `ProcSpec.PickUnique` | kern/schedule/sched.c:21-34 | the choice of schedule is determined by the states and the current process |
| `ProcSpec.PickByPosition` | kern/schedule/sched.c:21-34 | that is the first runnable process behind the current one in the list, or if there is none the first of the list, or if there is none idle |
| `ProcSpec.PickApproaches` | kern/schedule/sched.c:23-31 | each call brings the turn strictly closer to any given runnable process, or gives it the turn |
| `ProcSpec.Fair` | kern/schedule/sched.c:13-41 | a process that stays runnable is chosen within as many calls as there are listed processes, however other states change |
| `ProcTable.NoStarvation` | kern/schedule/sched.c:13-41 | over successive calls of schedule without insertions, a process that is runnable at each gets a turn within as many calls as there are listed processes |
| `ProcTable.ProcTable.constructor` | kern/process/proc.c:374-428 | after proc_init there are two processes: idle, current, PID 0, runnable and asking for scheduling; and init, listed, PID 1, runnable, on its own stack and a child of idle; all tables agree |
| `ProcTable.FirstTurn` | kern/process/proc.c:432-441 | after proc_init the current process asks for scheduling, and the first schedule makes init current and clears that request |
| `ProcTable.ProcTable.GetPid` | kern/process/proc.c:128-168 | terminates through goto and wrap-around, and returns the first unused PID in cyclic order whether it scans or not; afterwards no listed PID lies strictly between last_pid and next_safe |
| `ProcTable.FirstStep` | kern/process/proc.c:134-144 | the path without a scan already has the first unused PID |
| `ProcTable.StepUsed` | kern/process/proc.c:151-163 | every increment of last_pid leaves a used PID and gets strictly closer to each unused one |
| `ProcTable.ScanEnds` | kern/process/proc.c:146-167 | a completed scan leaves an unused PID and a right window |
| `ProcTable.ProcTable.DoFork` | kern/process/proc.c:297-348 | the return code says exactly why a fork fails and a failed fork changes nothing at all; a successful one lists one new runnable process under the next unused PID in its bucket, and all tables agree |
| `ProcTable.ProcTable.Enlist` | kern/process/proc.c:329-336 | PID, bucket, list, count and state of a prepared record, keeping every table right |
| `ProcTable.ForkKeeps` | kern/process/proc.c:297-348 | listing a process under an unused PID keeps PIDs distinct, each process in exactly its own bucket, stacks distinct and the window right |
| `ProcTable.BucketFinds` | kern/process/proc.c:205-221 | the bucket of a PID holds every listed process with that PID and only listed ones |
| `ProcSpec.HashBits` | libs/hash.c:13-17 | the bucket of a PID is the bits 31 to 22 of its product with 0x9e370001 |
| `ProcTable.ProcTable.FindProc` | kern/process/proc.c:205-221 | for every int, equals a search of the whole list |
| `ProcTable.ProcTable.Schedule` | kern/schedule/sched.c:13-41 | current becomes the first runnable process in cyclic order after the old one, idle if none; its run count rises by one, the old one's request is cleared, nothing else changes |
| `ProcTable.ProcTable.Walk` | kern/schedule/sched.c:23-31 | the do-while loop ends, once round at most, at the first runnable process or with none |
| `ProcTable.PassedStep` | kern/schedule/sched.c:23-31 | one step of that loop, across the head |
| `Vma.SearchFinds` | kern/mm/vmm.c:106-122 | on a sorted list the search finds an area exactly if it holds the address, whatever its place |
| `Vma.NeighboursSuffice` | kern/mm/vmm.c:158-167 | the two neighbour checks pass exactly when the new interval is disjoint from every listed one |
| `Vma.Mm.constructor` | kern/mm/vmm.c:65-79 | an empty, valid list |
| `Vma.Mm.Find` | kern/mm/vmm.c:104-125 | cached or not, the answer is that of the uncached search, and the cache follows |
| `Vma.FindVma` | kern/mm/vmm.c:98-128 | nothing for a null descriptor, else what the search of the whole list finds |
| `Vma.Mm.InsertVma` | kern/mm/vmm.c:140-173 | passes its assertions exactly for a non-empty interval disjoint from all, and then lists it in order with map_count right; a stop comes before any write |
| `Vma.Mm.Destroy` | kern/mm/vmm.c:176-187 | gives every area back once, in order |
| `DtbSpec.LoadIsBigEndian` | kern/driver/dtb.c:29-32 | a little-endian load followed by fdt32_to_cpu reads a big-endian word |
| `DtbSpec.LoadIsBigEndian64` | kern/driver/dtb.c:34-37 | likewise for 64 bits |
| `DtbMemory.TokenBytes` | kern/driver/dtb.c:21-26 | the tokens in memory: the words 1, 2, 3, 4 and 9, names with NUL and padding, lengths and offsets big-endian |
| `DtbMemory.MemoryNames` | kern/driver/dtb.c:58-61 | a node counts as memory* exactly if its name starts with the six characters of "memory" |
| `DtbMemory.ShortReg` | kern/driver/dtb.c:78-84 | a reg of 15 bytes or fewer is passed over |
| `DtbMemory.SaidIsWanted` | kern/driver/dtb.c:78-84 | for all 64-bit base and size: if the first usable reg of a memory* node starts with the two as big-endian numbers, they are what is wanted |
| `DtbMemory.SilentIsNone` | kern/driver/dtb.c:78-99 | if no memory* node has a usable reg, nothing is |
| `DtbSpec.NopsDoNotMatter` | kern/driver/dtb.c:91-92 | FDT_NOP tokens anywhere change nothing |
| `DtbSpec.ScanTree` | kern/driver/dtb.c:50-100 | the flag-and-cursor scan of any serialised tree, by recursion on the tree |
| `DtbSpec.RightExactlyWithoutStray` | kern/driver/dtb.c:50-100 | for the shape of a tree: the scan finds the first usable reg of a memory* node, whatever the properties, if and only if no memory* node has a first child that is not one |
| `DtbSpec.FoundIsLentOrWanted` | kern/driver/dtb.c:50-100 | on every tree: the scan finds the right reg unless the flag has been lent to another node with a reg ahead of it, and then finds that one |
| `DtbSpec.FoundIsWanted` | kern/driver/dtb.c:50-100 | without such first children, in particular if memory* nodes are leaves, the right reg is found, with the flag set on entry or not |
| `DtbSpec.StrayChild` | kern/driver/dtb.c:68-70 | a smallest tree on which the lent flag gives a wrong answer |
| `DtbSpec.ScanOfDevicetree` | kern/driver/dtb.c:40-101 | the same for a whole structure block with NOPs anywhere |
| `Dtb.Strlen` | libs/string.c:11-18 | the distance to the first NUL |
| `Dtb.StrncmpIsZero` | libs/string.c:126-132 | zero exactly if the string starts with the literal |
| `Dtb.StrcmpIsZero` | libs/string.c:103-113 | zero exactly if the string is the literal |
| `Dtb.TokenWords` | kern/driver/dtb.c:50-89 | the words read at a token boundary, and that the cursor arithmetic lands on the next boundary |
| `Dtb.ExtractMemoryInfo` | kern/driver/dtb.c:40-101 | on serialised tokens up to FDT_END or an unknown word, returns what the token scan returns; on a serialised tree without stray first children, NOPs anywhere, that is the base and size that the tree says, and none if it says nothing |
| `Dtb.BlobOffsets` | kern/driver/dtb.c:40-46 | bytes that start with magic, size and the two offsets as big-endian words are read at those offsets |
| `Dtb.ReadBlob` | kern/driver/dtb.c:40-101 | from the bytes of a whole device tree without stray first children to the base and size that it says |
| `Dtb.ScanStructure` | kern/driver/dtb.c:50-100 | the loop terminates and its cursor stays on token boundaries |
| `NumText.ParseLong` | libs/string.c:203-259 | the loops of strtol compute the reading given by Strtol |
| `NumText.DocumentedUnlessUpperPrefix` | libs/string.c:182-201 | strtol does what its comment says if and only if the number does not start with "0X" in base 16; there it reads 0 and stops behind the digit |
| `NumText.UpperPrefixFails` | libs/string.c:221-227 | "0X1f" in base 16 is documented to be 31 and read as 0 |
| `NumText.TakePrinted` | libs/string.c:233-253 | reading the digits of any n accumulates n, as far as 64 bits hold it |
| `NumText.PrintThenParse` | libs/printfmt.c:36-52 | for base 8, 10, 16, any width, padding by zeros or blanks and every n, strtol reads printnum's output back, all of it, as n wrapped to 64 bits, n itself below 2^63; its length is max(width, digits) |
| `StrtolLaws.NumberReads` | libs/string.c:203-259 | for every text of blanks, sign, prefix, digits in either case and a rest that starts with no digit, in base 0 or 1 to 36: strtol reads the signed positional value in the base that the prefix stands for, wrapped to 64 bits, and stops behind the digits |
| `PrintfSpec.NumeralEnds` | libs/printfmt.c:150-158 | a width or precision ends before the NUL |
| `PrintfSpec.LiteralText` | libs/printfmt.c:123-128 | text without percent signs prints as itself |
| `PrintfSpec.UnknownGoesBack` | libs/printfmt.c:269-273 | an escape that ends in an unknown character goes back to its start, whatever its flags, with one argument gone for each star |
| `PrintfSpec.UnknownPrintsLiterally` | libs/printfmt.c:268-273 | an unrecognised escape prints literally, percent sign, flags and all, and the next argument is unchanged if and only if it has no star |
| `PrintfSpec.StarStaysConsumed` | libs/printfmt.c:160-162 | in "%*y%d" the star takes the first argument, so %d prints the second |
| `PrintfSpec.DecimalRoundTrip` | libs/printfmt.c:226-261 | "%ld" prints what strtol reads back, for every 64-bit value but the least |
| `PrintfLaws.ReadOne` | libs/printfmt.c:130-181 | for every conversion: a flag or none, then width and precision, written as digits or as stars, and any number of letters l are read as what they say |
| `PrintfLaws.NumeralReads` | libs/printfmt.c:150-158 | the digits of n in a format are read as n |
| `PrintfLaws.UnsignedText` | libs/printfmt.c:236-261 | %x, %o and %u, any number of l, any flag, width and precision: pad characters up to the width and lower-case digits without leading zero, which strtol reads in base 16, 8 or 10 as the 32-bit or 64-bit unsigned argument; with zeros or blanks it reads the whole output so |
| `PrintfLaws.PointerText` | libs/printfmt.c:247-253 | %p: "0x" and then the 64-bit argument in the same way in base 16 |
| `PrintfLaws.SignedText` | libs/printfmt.c:225-233 | %d, plain or with l, any width: a minus sign exactly for a negative argument, then the padded digits of its absolute value |
| `PrintfLaws.CharText` | libs/printfmt.c:183-186 | %c prints the low byte of its argument and %% a percent sign |
| `PrintfLaws.StringShown` | libs/printfmt.c:203-223 | %s: as much of the string, or of "(null)", as the precision allows, unprintable characters as '?' under '#', blanks behind it under '-', else zeros or blanks in front |
| `PrintfLaws.ErrorTexts` | libs/printfmt.c:188-200 | %e: the description of the codes 1 to 6 in either sign, and "error" with the number otherwise |
| `PrintfLaws.CodesExplained` | libs/error.h:5-10 | -E_NO_MEM prints as "out of memory", -E_NO_FREE_PROC as "out of processes", -E_INVAL as "invalid parameter" |
| `Printf.SprintBuf.Putch` | libs/printfmt.c:290-296 | counts every character, stores those that fit, writes nothing at or behind ebuf |
| `Printf.SprintBuf.PrintNum` | libs/printfmt.c:36-52 | the recursion with its padding loop emits the digits padded to the width |
| `Printf.SprintBuf.PutString` | libs/printfmt.c:203-223 | the three loops of %s emit the shown characters, padded on the right side |
| `Printf.SprintBuf.PutConversion` | libs/printfmt.c:183-266 | each conversion emits its text and takes its arguments; the default case is recognised |
| `Printf.ReadFlags` | libs/printfmt.c:136-181 | flags, width and precision, up to the first other character |
| `Printf.ReadNumeral` | libs/printfmt.c:150-158 | the digits of a width or precision |
| `Printf.SprintBuf.PutEscape` | libs/printfmt.c:130-274 | one escape is printed, and the default branch moves back exactly to behind the percent sign |
| `Printf.SprintBuf.Vprintfmt` | libs/printfmt.c:116-276 | terminates on every NUL-terminated format, although fmt moves backwards, and emits what the format means |
| `Printf.Vsnprintf` | libs/printfmt.c:328-339 | returns the untruncated length, stores exactly the first min(length, size - 1) characters and a NUL, writes nothing outside; rejects a null or empty buffer untouched |

## Left out

- SlobHeap.Slob.Kmalloc: takes the page allocator's answers as parameters that clash with nothing held; `HeapOnPages.AnswersAreFair` derives that.
- SlobHeap.Slob.Kfree: what happens after the arena has been handed out is not modelled.
- SlobHeap.Slob.SlobFree: giving back the arena itself, likewise.
- SlobHeap.Slob.SlobAlloc: the branch for a non-zero alignment (`kern/mm/kmalloc.c:109-124`) has no caller, nor has a request of 0 bytes with its header; the arena is assumed to lie below every heap page and not next to one.
- SlobHeap.Slob.Ksize: the shift by the order is unbounded; the 32-bit result of a run of 2^20 pages or more, which no order computed by find_order reaches, is not modelled.
- KmallocSpec.RunKeepsInv: a run ends where an assertion stops the kernel or the arena is handed out.
- FirstFitSpec.RunKeepsArea: a run ends where the first fit is a torn block or an insertion goes directly below one; `FirstFit.FreeArea.AllocPages` and `FirstFit.FreeArea.FreePages` state what that one call does.
- FirstFit.FreeArea.AllocPages: on a list that no longer agrees with its blocks, which page is handed out is stated, not what the links are then.
- PageTable.PageDirectory.PageInsert: permissions are below bit 10; a permission word that reaches into the page number is not modelled. Page numbers fit the 44 bits of the format.
- PageTable.PageDirectory.GetPte: a walk that meets a huge leaf is excluded, for the code would treat the mapped memory as a table.
- PageTable.PageDirectory.GetPage: likewise.
- PageTable.PageDirectory.PageRemove: likewise.
- PageTable.PageDirectory.AllocPage: which free page is handed out is left open; the page allocator above is a separate model.
- `boot_map_segment` (`kern/mm/pmm.c:149-162`): has no caller, and maps pages without counting them.
- TLB flushes, `satp`, the physical memory map and the linear map between kernel and physical addresses.
- ProcTable.ProcTable.DoFork: trapframe, context and memory descriptor of the child (`copy_thread`, `copy_mm`) are not modelled, and the cleanup of the stack behind `copy_mm` never runs, since `copy_mm` does not fail.
- ProcTable.ProcTable.constructor: the scratch memory for the record check, the name strings and the address of the boot stack.
- ProcTable.ProcTable.Schedule: the register switch inside `proc_run`; only the change of `current` is modelled.
- `do_exit`, which panics, and `cpu_idle`.
- The process and area lists, the hash buckets: order and membership are modelled, their links are not; for links see `LinkList`.
- Dtb.ExtractMemoryInfo: bytes in which a name or a property runs past the end, on which the code reads outside the tree; the magic check and the messages of `dtb_init`; the start address is 4-aligned.
- Printf.SprintBuf.Vprintfmt: overflow of the `int` width, precision and count, and `%e` or `%d` of the least value of their type, where C leaves signed negation undefined.
- NumText.ParseLong: signed overflow, undefined in C, wraps in two's complement; a null end pointer.
- Console, SBI calls, clock, interrupt controller, monitor, traps, boot and switch code, and the self-check routines: no property beyond their text.
