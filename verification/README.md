# 8godOS: the memory-management stack, the keyboard ring and the terminal, verified

This project models the memory management of an x86_64 kernel as one layered system, from the boot
loader's memory map up to the kernel heap, and two small stateful drivers beside it. Each part has a
layer of values and functions, about which the theorems are proved, and a class or method that works
in place as the C code does and is proved to compute exactly those functions.

| part | C source | values, functions, theorems | in-place code |
|---|---|---|---|
| boot information | `src/mb2.c` | `BootInfoSpec`, `BootInfoRoundTrip`, `BootInfoChain` | `BootInfo` |
| frames | `src/pmm.c` | `FrameSpec` | `FrameAllocation`, `PmmBoot` |
| page tables, spaces, faults | `src/vm.c` | `Paging`, `VmSpec`, `VmMapping`, `VmSpaces`, `VmFaults`, `VmAddresses`, `VmRun`, `VmGuarantees`, `VmHeapTables`, `VmHeapRegion`, `VmHeapLimits`, `VmHeapSupply` | `VirtualMemory`, `Startup` |
| kernel heap | `src/heap.c` | `HeapSpec`, `HeapProperties`, `HeapArena`, `HeapMerging`, `CellTrace`, `HeapOnRegion` | `KernelHeap`, `HeapSessions` |
| keyboard | `src/keyboard.c` | `KeyboardSpec`, `KeyLayout`, `KeyRing`, `KeyStream` | `Keyboard` |
| terminal | `src/vga.c` | `Terminal` | `Vga` |

How the layers fit. `Startup.Start` makes the virtual layer and runs `PmmBoot.PmmInit` on the tables the
boot code leaves; it ends in a state (`PmmBoot.BootState`) that satisfies every invariant of the virtual
layer (`PmmBoot.BootEstablishes`). `PmmBoot.BootedRun`, `PmmBoot.BootedRegion`, `PmmBoot.BootedSupply` and
`PmmBoot.BootedSpaces` are the end-to-end statements. The 16MB heap region, filled page by page by the
fault handler, is a flat zero-initialised array of words. The kernel heap records every cell it reads and
writes; `HeapOnRegion.HeapFromBoot` shows that these accesses, made as loads and stores on the region of
the booted machine, read the same cells and leave the same arena.

Modelling choices.

- Physical memory is an array of 262144 frames of 512 words. A word is split into the fields the walk
  reads; `Words.BitsRoundTrip` and `Words.WordRoundTrip` show that this is the same as a 64-bit number.
  Memory below 1GB is accessed at its own address, which `VmGuarantees.IdentityForever` justifies.
- A virtual page is named by its four table indices. CR3 and the TLB are state; the TLB is filled by
  any access, loses entries at any time, and `invlpg` on a non-canonical address does nothing
  (sections 4.5, 4.7 and 4.10.4 of the Intel SDM Volume 3A). An address space is its root table's frame.
- Every frame has a purpose (`Paging.Owner`): free, reserved, table with its index path and parent,
  caller's data, or heap page. It is bookkeeping for the proofs; the code has only the bitmap.
- A run is any sequence of steps (`VmRun.Action`, `VmHeapRegion.HeapAction`). Callers owe what the
  code does not check: canonical addresses, freeing only frames they were given, and not writing to
  tables or heap frames through the identity map.
- The heap arena is an array of 16-byte cells, each read as a block header where a header is expected.
- The panic branches that legitimate callers never reach are kept as branches holding `assert false`.

- Every lemma carries `{:induction false}`: each proof is the one written down, none relies on the
  verifier's automatic induction. `hide` statements keep definitions a proof does not need out of it.

Where the code and its comments differ, the model follows the code:

- `src/vm.h:56` and `src/vm.c:205` call slots 256..511 of a new space shared with the kernel. Only the
  slots present at creation are: `VmGuarantees.AgreeForeverIff` gives the exact condition,
  `VmHeapLimits.CreatedTooEarly` a run in which the heap region comes apart, and
  `VmHeapLimits.FlatForeverIff` exactly when it does not.
- `vm_unmap` returns 0 for "not mapped" (`src/vm.h:50`), and also for a page that was mapped to frame 0:
  `VmMapping.UnmapFrameZero`, with `VmMapping.UnmapZeroIff` as the exact condition.
- `vm_map` ors `flags` into the entry unmasked (`src/vm.c:162`), so address bits in `flags` change the
  mapping: `VmMapping.FlagsSlipThrough` maps a frame past the 1GB limit, and `VmMapping.MapUnmapRoundTrip`
  says exactly when the address still comes back.
- `vm_unmap` takes addresses that are not canonical; `VmHeapLimits.AliasLeavesStale` unmaps a page by one
  and leaves it in the TLB, and `VmRun.UnmapCoherentIff` is the exact condition.
- `kfree` on a bad pointer is said to stop the kernel (`src/heap.h:16`). `KernelHeap.KernelHeap.Kfree` says
  for every pointer when it does: it returns from a bad pointer exactly if the pointer is forged and
  forward merging from it settles. `HeapSessions.ForgeryReturns`, `HeapSessions.ForgeryBreaks` and
  `HeapSessions.ForgeryStops` are runs in which it returns, returns and breaks the block list, and stops.
  `KernelHeap.CounterfeitIff` says which pointers are forged, and `KernelHeap.KernelHeap.OwnerWrite` that
  they come only from writing what looks like a live header.
- `vga_entry` sign-extends its character (`src/vga.c:22-24`), so from 128 on the colour is lost:
  `Terminal.Entry`.

## Model

| member | source | states |
|---|---|---|
| Words.BitsRoundTrip | src/vm.h:15-19 | splitting a 64-bit entry into flag bits and the address mask loses nothing: every number comes back |
| Words.WordRoundTrip | src/vm.h:15-19 | and every split word is the split of its number |
| Words.FieldPositions | src/vm.h:15-19 | the flag bits and the address mask are at the positions the header gives |
| Words.EntryNumber | src/vm.c:89 | a table link is the frame's address with the two low flag bits, 3 |
| Words.OrIsBitwise | src/vm.c:162 | address and flags are combined bit by bit |
| FrameSpec.LowestFree | src/pmm.c:326-350 | the result is a clear bit with none below it, or there is no clear bit at all |
| FrameSpec.ReallocationRepeats | src/pmm.c:326-369 | allocating n frames, freeing them in any order and allocating n again gives the same frames in the same order |
| FrameAllocation.HintedSearch | src/pmm.c:331-347 | while everything below the hint is in use, the search from the hint already gives the lowest free frame, so the wrap-around pass never yields one |
| FrameAllocation.FrameAllocator.SetUsed | src/pmm.c:60-62 | sets exactly one frame's bit in the bitmap |
| FrameAllocation.FrameAllocator.SetFree | src/pmm.c:64-66 | clears exactly one frame's bit in the bitmap |
| FrameAllocation.FrameAllocator.Alloc | src/pmm.c:326-350 | takes the lowest free frame, as a scan from zero would, returns 0 exactly if none is free, and keeps counter, hint and reserved frame 0 right |
| FrameAllocation.FrameAllocator.Free | src/pmm.c:352-369 | clears the bit of a real frame address and ignores all others; counter and hint stay right |
| FrameAllocation.ClampedEnd | src/pmm.c:74-77 | the 64-bit arithmetic gives the true end cut off at 1GB, also when base + length overflows |
| FrameAllocation.FreeSpan | src/pmm.c:79-85 | the loop bounds of mark_free cover exactly the frames wholly inside the range |
| FrameAllocation.UsedSpan | src/pmm.c:99-107 | the loop bounds of mark_used cover exactly the frames that meet the range |
| FrameAllocation.FrameAllocator.MarkFree | src/pmm.c:69-86 | clears exactly the bits of frames wholly inside the range |
| FrameAllocation.FrameAllocator.MarkUsed | src/pmm.c:89-108 | sets exactly the bits of frames that meet the range |
| FrameAllocation.FrameAllocator.BitmapInit | src/pmm.c:224-251 | a frame is free exactly if one available range holds it and it meets neither the low 1MB nor the kernel image nor the boot information; the counter equals the number of clear bits |
| PmmBoot.EnsureMapped | src/pmm.c:115-168 | when it succeeds (an exact condition), and exactly which directory entries it fills: the empty ones that meet the range, before the first small-page table |
| PmmBoot.ExtendIdentity | src/pmm.c:174-215 | when it succeeds, and that it then fills exactly the empty entries from 1 on that begin below the end; otherwise nothing changes |
| PmmBoot.PmmInit | src/pmm.c:253-324 | for any readable tables: succeeds exactly if the block can be mapped and parsed; then the free frames are exactly the usable ones, and the large pages present are exactly those there were, the block's and those below the end of some range; from the boot tables the virtual layer can start |
| PmmBoot.BootEstablishes | src/boot.asm:60-72 | the state after pmm_init satisfies every invariant of the virtual layer, and the heap region reads as zeros |
| PmmBoot.BootedRun | src/vm.c:67-283 | from boot on, after every run: TLB coherent, private slots private, every address in a non-reserved frame translated to itself in every space |
| PmmBoot.BootedRegion | src/vm.c:228-283 | from boot on, every step of every run gives what a flat array of zeros gives, except a step that stops the kernel, which happens exactly for an unmapped page with too few frames or an access the handler does not serve |
| PmmBoot.BootedSupply | src/vm.h:20-22 | loads and stores from the kernel space never stop the kernel and are those of the flat array for ever, exactly if 4106 frames are free at boot |
| PmmBoot.BootedSpaces | src/vm.c:185-283 | the same from every space, for runs that create n spaces, with n frames more |
| PmmBoot.BootableAtBoot | src/pmm.c:253-283 | with the boot tables, whether pmm_init succeeds depends on the block alone: its place below 1GB, its size and that it parses |
| Startup.Start | src/kernel.c:88-100 | vm_init and then pmm_init leave the virtual layer in the state the run theorems start from, exactly if the boot information is good |
| BootInfoSpec.EntriesFit | src/mb2.c:68-75 | every counted entry fits in its tag, so the truncation check never fires |
| BootInfoSpec.LittleEndian | src/mb2.c:33-47 | numbers are read lowest byte first |
| BootInfoSpec.ReadsOnlyTheBlock | src/mb2.c:40-97 | bytes beyond the announced size have no influence on the result |
| BootInfoSpec.ParseGood | src/mb2.c:85-92 | no more ranges are returned than there is room for, wherever the block lies |
| BootInfoRoundTrip.TagRoundTrip | src/mb2.c:58-94 | a laid-out tag contributes exactly its available entries, for any entry size, slack and padding |
| BootInfoRoundTrip.BlockRoundTrip | src/mb2.c:26-100 | every block of at most 1MB laid out at a multiple of 8 parses to exactly its available ranges in order, or to an error if they exceed the array |
| BootInfoChain.ParseFollowsChain | src/mb2.c:26-100 | on arbitrary bytes: the answer is read off the chain of tags, which ends at the end tag, at the end of the block or at a bad tag |
| BootInfoChain.ParseFailsIff | src/mb2.c:31-96 | -1 exactly for an impossible total size, a chain that runs into a bad tag, or more available ranges than there is room for |
| BootInfo.Mb2Init | src/mb2.c:26-100 | on arbitrary bytes at any address the loop ends, reads only the block, and returns -1 or the parsed ranges at the front of the array with the rest untouched; NULL arguments give -1 and change nothing |
| BootInfo.ReadEntries | src/mb2.c:68-93 | the inner loop appends exactly the available entries of one tag |
| Paging.AddTableKeepsInv | src/vm.c:76-89 | claiming, clearing and linking a table keeps every table on exactly one index path |
| Paging.AddTableKeepsResolve | src/vm.c:76-89 | a new, empty table changes no translation in any space |
| Paging.WalkGrows | src/vm.c:67-137 | a walk keeps the invariant, takes only free frames, fills only empty entries, and of the root tables changes only its own |
| Paging.WalkReaches | src/vm.c:67-137 | the table a successful walk ends at is the one the processor reaches |
| Paging.WalkKeepsResolve | src/vm.c:67-137 | a walk, finished or broken off for want of frames, changes no translation in any space |
| Paging.LeafShared | src/vm.c:204-211 | two spaces reach the same last-level table exactly if they share the root slot |
| VmFaults.PathsAreDistinct | src/vm.c:76-136 | the four indices identify the page of a canonical address |
| VmAddresses.PathDigits | src/vm.c:76-136 | the four indices are, in order, the base-512 digits of bits 12..47 of the address, for every address |
| VmAddresses.CanonicalBits | src/vm.h:20-22 | canonical means that bits 47..63 are equal |
| VmAddresses.SmallPageAddress | src/vm.c:162 | an address in a 4KB page is translated to the entry's frame and the low 12 bits |
| VmAddresses.LargePageAddress | src/pmm.c:150-158 | in a 2MB page, to the entry's frame and the low 21 bits |
| VmAddresses.HugePageAddress | src/pmm.c:134-137 | in a 1GB page, to the entry's frame and the low 30 bits |
| VmMapping.MapExact | src/vm.c:139-165 | a successful vm_map changes the translation of exactly one page, to pa with the flags, in exactly the spaces sharing its slot; a failed one changes none; a present page is never replaced |
| VmMapping.MapSucceedsIff | src/vm.c:139-165 | it succeeds exactly if the arguments are aligned and in range, the page is unmapped, no large page is in the way and there are frames for all missing tables |
| VmMapping.WalkSucceedsIff | src/vm.c:67-137 | a walk succeeds exactly if nothing blocks it and frames suffice, and takes exactly the missing number |
| VmMapping.UnmapExact | src/vm.c:167-183 | vm_unmap removes exactly one small page, in the sharing spaces, and returns its address; large pages and unmapped pages stay |
| VmMapping.UnmapZeroIff | src/vm.c:167-183 | the result is 0 exactly if nothing was unmapped or the page was mapped to frame 0 |
| VmMapping.UnmapFrameZero | src/vm.c:167-183 | mapping a page to frame 0 and unmapping it returns 0 although the page was mapped |
| VmMapping.MapUnmapRoundTrip | src/vm.c:139-183 | mapping and then unmapping restores every translation of every space, and returns pa exactly if flags brings in no address bit that pa lacks; without the present bit 0 comes back |
| VmMapping.FlagsSlipThrough | src/vm.c:145-164 | flags with an address bit map a frame past the 1GB limit, and unmapping returns another address than was mapped |
| VmSpaces.CreateExact | src/vm.c:185-214 | a new space alters no other; it translates slot 0 and the upper half as the kernel does and nothing else |
| VmSpaces.CreateShares | src/vm.c:208-211 | it shares tables with the kernel space exactly in the copied slots that were present |
| VmSpaces.MapKeepsIsolated | src/vm.c:139-165 | mapping never makes two spaces share tables in the slots 1..255 |
| VmFaults.FaultExact | src/vm.c:228-283 | a handled fault maps exactly the faulting page, to the lowest free frame, in the spaces sharing the heap slot; an unhandled one changes no translation |
| VmFaults.FaultFrame | src/vm.c:253-264 | that frame was free and is zeroed |
| VmFaults.FaultHandledIff | src/vm.c:228-283 | a fault is repaired exactly if bits 0, 3 and 4 of the error code are clear, the address is in the heap region and not mapped, and there are frames for the page and all missing tables |
| VmRun.StepKeepsInv | src/vm.c:67-283 | every step keeps the table invariant, and no present entry above the last level ever changes |
| VmRun.RunKeepsInv | src/vm.c:67-283 | over every run every table is linked from one parent on one index path, and the bitmap agrees with what each frame is for |
| VmRun.AccessRetrySucceeds | src/vm.c:266-282 | after a handled fault the retried access never faults again and gets the tables' translation; the kernel stops exactly if the handler cannot repair |
| VmRun.FetchesStop | src/vm.c:236-247 | a protection fault, a reserved bit or an instruction fetch is never repaired: the kernel stops and nothing has changed |
| VmRun.DataFaultsRepaired | src/vm.c:248-283 | a read or write of an absent heap page, from either mode, is repaired exactly if there are frames |
| VmRun.SwitchSees | src/vm.c:216-226 | the first access after a switch translates by the space switched to, and finds every page it maps |
| VmRun.AllocThenFree | src/pmm.c:326-369 | allocating takes the lowest free frame for the caller, and freeing it restores memory and bitmap |
| VmRun.FreeGivesBack | src/pmm.c:352-369 | a frame given back is free, counted, and not passed over by the next allocation |
| VmRun.UnmapCoherentIff | src/vm.c:167-183 | vm_unmap in any space keeps the TLB coherent exactly if the address is canonical or nothing cached was lost |
| VmRun.RunKeepsCoherent | src/vm.c:139-226 | over every run each TLB entry is the translation the current tables give |
| VmGuarantees.SharedForever | src/vm.c:185-214 | a slot present at creation agrees with the kernel space for ever, whichever space maps, unmaps or faults |
| VmGuarantees.AbsentSlotDiverges | src/vm.c:208-211 | for a slot absent at creation, one mapping in the kernel space makes the two spaces differ |
| VmGuarantees.AgreeForeverIff | src/vm.c:208-211 | a copied slot agrees in all continuations exactly if it was present at creation |
| VmGuarantees.RunKeepsIsolated | src/vm.c:67-214 | over every run distinct spaces share no table below the slots 1..255 |
| VmGuarantees.PrivateSlots | src/vm.c:67-183 | after every run, mapping or unmapping through the slots 1..255 of a space alters no translation of another |
| VmGuarantees.StoredReadsBack | src/vm.c:139-222 | a word stored through a private page of a space reads back once the space is current again, after any run that does not unmap that page there or touch its frame |
| VmGuarantees.FaultOwnership | src/vm.c:253-277 | a fault takes only free frames, and a failed one returns its data frame |
| VmGuarantees.RunOwnership | src/vm.c:76-133 | over every run a frame in use keeps its purpose, and a non-table frame its contents, unless its owner frees it or stores to it |
| VmGuarantees.IdentityForever | src/pmm.c:206-211 | over every run each address in a non-reserved frame is translated to itself in every space |
| VmGuarantees.LargePageNumber | src/pmm.c:209 | directory entry i of the identity map is i * 2MB + 0x83 |
| VmHeapTables.StepKeepsClear | src/vm.c:67-137 | no step ever puts a large page below the heap's slot, so the walk to a heap page lacks tables at most |
| VmHeapRegion.DistinctPages | src/vm.c:253-273 | distinct heap pages never share a frame |
| VmHeapRegion.HandledFaultShows | src/vm.c:253-273 | filling in a page does not change what the region reads as |
| VmHeapRegion.HeapStepRefines | src/vm.c:228-283 | each step of a run is a step of a flat array, from whichever space it is made; a step that stops the kernel leaves the array as it was |
| VmHeapRegion.HeapStopsIff | src/vm.c:228-283 | a load or store stops the kernel exactly if its page is unmapped and there are too few frames for it and its missing tables |
| VmHeapRegion.RegionRefinesFlatArray | src/vm.c:228-283 | in every run every load gives the last word stored at that offset, or zero, except at the step that stops the kernel, whose condition is exact |
| VmHeapLimits.CreatedTooEarly | src/vm.c:208-211 | a space created before the kernel has the heap slot reads zero where the kernel stored something else |
| VmHeapLimits.FlatForeverIff | src/vm.c:208-211 | after a space is created the region is one flat array in all continuations exactly if the kernel space had the heap's slot |
| VmHeapLimits.AliasLeavesStale | src/vm.c:167-183 | unmapping a cached heap page by an alias that is not canonical leaves a TLB entry the tables no longer give |
| VmHeapLimits.FaultConsumes | src/vm.c:253-273 | a handled fault takes one frame for the page and one for each missing table |
| VmHeapLimits.OneTablePerPath | src/vm.c:67-137 | within the shared slot each index path belongs to one table |
| VmHeapLimits.FaultBudget | src/vm.h:20-22 | over every run, whatever else is mapped, unmapped, created or freed, faults take at most 4096 page frames and 10 table frames, each once, and all of them serve the region to the end |
| VmHeapLimits.CounterCountsPages | src/vm.c:279-280 | over every run the fault counter grows by exactly the number of heap pages brought in, modulo 2^64 |
| VmHeapSupply.EnoughFrames | src/vm.c:228-283 | with 4106 frames free or serving, and one more per space created, every run of loads and stores from any space goes through and gives exactly the flat array's outputs |
| VmHeapSupply.SufficientIff | src/vm.h:20-22 | and with fewer some run of loads stops the kernel: the number is exact |
| VirtualMemory.VirtualMemory.constructor | src/vm.c:47-52 | the current root becomes the kernel space, before the allocator is ready |
| VirtualMemory.VirtualMemory.NextTable | src/vm.c:76-93 | one level of the walk, in place, is `Descend` |
| VirtualMemory.VirtualMemory.WalkTables | src/vm.c:67-137 | the three levels in place are `Walk` |
| VirtualMemory.VirtualMemory.Map | src/vm.c:139-165 | the in-place code is `VmMap` on the whole state |
| VirtualMemory.VirtualMemory.Unmap | src/vm.c:167-183 | the in-place code is `VmUnmap` on the whole state |
| VirtualMemory.VirtualMemory.CreateSpace | src/vm.c:185-214 | the clearing and copying loops are `VmCreateSpace` |
| VirtualMemory.VirtualMemory.SwitchTo | src/vm.c:216-222 | CR3 is the space and the TLB is empty; NULL changes nothing |
| VirtualMemory.VirtualMemory.SwitchToKernel | src/vm.c:224-226 | CR3 is the kernel space and the TLB is empty |
| VirtualMemory.VirtualMemory.HandlePageFault | src/vm.c:228-283 | the in-place handler is `VmHandleFault`, including the failure path that returns the frame |
| HeapSpec.LiveDisjoint | src/heap.c:9-12 | distinct live blocks do not overlap, headers included |
| HeapSpec.CanonicalLayout | src/heap.c:64-132 | a layout that tiles the arena with no two free neighbours is determined by its live blocks alone |
| HeapSpec.TakeFacts | src/heap.c:64-78 | allocating from a block keeps the tiling and adds exactly one live block, at its place |
| HeapSpec.MergeOnce | src/heap.c:108-121 | the forward merge loop merges at most one block |
| HeapSpec.ReleaseFacts | src/heap.c:106-132 | freeing keeps the tiling, leaves no two free neighbours, and removes exactly that live block |
| HeapProperties.MallocFailsIff | src/heap.c:50-88 | kmalloc fails exactly if the size is 0 or over 16MB or no free block holds the rounded size |
| HeapProperties.MallocFacts | src/heap.c:50-88 | the block is fresh, at the lowest address where one fits, holds the request and exceeds it by at most 31 bytes |
| HeapProperties.FreesCommute | src/heap.c:90-133 | two frees in either order give the same block list |
| HeapProperties.MallocFreeRestores | src/heap.c:50-133 | freeing what kmalloc just returned restores the block list |
| HeapProperties.FreeAllGivesInitial | src/heap.c:90-133 | freeing every live block in any order leaves the single initial block |
| HeapProperties.Conservation | src/heap.c:9-12 | free payload, live payload and one header cell per block make up the whole arena |
| HeapProperties.WholeFreeSpace | src/heap.c:135-155 | kmalloc(heap_free_bytes()) succeeds exactly if there is one free block |
| HeapProperties.CallsKeepGood | src/heap.c:39-133 | over every run of calls the headers tile the arena, no two free blocks are neighbours and the totals add up to 16MB |
| HeapProperties.RunsForgetHistory | src/heap.c:39-133 | two runs that end with the same live blocks end with the same block list |
| KernelHeap.KernelHeap.Init | src/heap.c:39-48 | one free block over the whole arena; only its header is written |
| KernelHeap.KernelHeap.Kmalloc | src/heap.c:50-88 | the walk, split and marking in place are `Malloc`; no live payload is written; no panic |
| KernelHeap.PayloadsApart | src/heap.c:9-12 | the bytes handed out are aligned, inside the region and apart from every other live block and every header |
| KernelHeap.KernelHeap.Kfree | src/heap.c:90-133 | for any pointer: returns exactly for NULL, live pointers and forged ones from which merging settles; from a live one it frees that block only; a forged one changes its own cell only, or, inside a free block, breaks the list; every other pointer stops the kernel with nothing changed |
| KernelHeap.KernelHeap.Check | src/heap.c:90-104 | a pointer gets past the tests exactly if it is NULL, leads to a live block or to a counterfeit header, or stands behind bytes that look like one across two cells |
| CellTrace.StraddledFields | src/heap.c:95-104 | read at a multiple of four bytes, a straddling header consists of the next fields in memory |
| KernelHeap.CounterfeitIff | src/heap.c:95-104 | a pointer is forged exactly if its cell has the magic and free == 0 and lies in a live payload or inside a free block; no such cell is a former header still intact |
| KernelHeap.KernelHeap.MergeForward | src/heap.c:108-121 | from any header the loop ends as `Follow` says and changes only that header's size |
| KernelHeap.KernelHeap.MergeBack | src/heap.c:123-132 | the walk from the front ends at the block before, or around, the cell, which grows exactly if it is free |
| KernelHeap.KernelHeap.Splice | src/heap.c:106-132 | marking, merging forwards and merging back in place are `Spliced` |
| HeapMerging.FollowMerges | src/heap.c:108-121 | on a list that tiles the arena the forward loop settles and is the merging of the list |
| HeapMerging.LiveSplice | src/heap.c:106-132 | from a live header the result is the list with that block released |
| HeapMerging.ForgedSplice | src/heap.c:106-132 | from a counterfeit header the list is kept, or, if merging settles inside a free block, that block's header outgrows it and no list with the live blocks is left |
| KernelHeap.KernelHeap.FreeBytes | src/heap.c:135-155 | the payload bytes of the free blocks |
| KernelHeap.KernelHeap.OwnerWrite | src/heap.c:9-12 | an owner writing its payload disturbs no header in use, and forges a header exactly if the value looks like a live one |
| KernelHeap.OnceReturned | src/heap.c:95-104 | a cell that was ever a header, if no owner overwrote it, is live or still has the magic and free == 1, so freeing it again stops the kernel |
| HeapSessions.Session | src/heap.c:50-133 | over every run of calls, owners' writes and second frees: the arena holds the block list of the calls, the kernel stops exactly at a second free, payload cells of blocks not freed hold what was last written, former headers not overwritten stay tracked, and no header is forged if no write forges one |
| HeapSessions.ForgeryReturns | src/heap.c:90-133 | a header forged in the owner's own block: kfree returns although the pointer is bad |
| HeapSessions.ForgeryStops | src/heap.c:114-116 | a forged header from which forward merging stops the kernel |
| HeapSessions.ForgeryBreaks | src/heap.c:130-132 | a header forged in a block freed since: kfree returns and the block list is broken |
| HeapOnRegion.CellRoundTrip | src/heap.c:20-24 | a block header is two 64-bit words and back |
| HeapOnRegion.HeaderBits | src/heap.c:20-24 | magic is the low half of the first word, free its high half, size the second word |
| HeapOnRegion.ArenaOnRegion | src/heap.c:39-48 | reads and writes of cells, made as loads and stores on the demand-paged region, give what an array of cells gives and leave the same contents |
| HeapOnRegion.TraceOnRegion | src/heap.c:39-155 | all that a heap object has read and written goes through on the region, reads the same cells and leaves the same arena |
| HeapOnRegion.Life | src/heap.c:39-133 | heap_init on zeros and any run of calls, writes and second frees keep the promises of a session |
| HeapOnRegion.HeapFromBoot | src/kernel.c:95-104 | from boot with 4106 free frames, everything such a heap does runs unchanged on the demand-paged region |
| KeyboardSpec.TwoPasses | src/keyboard.c:99-138 | for every byte stream the characters are those of two passes: drop each 0xE0 and its second byte, then translate make codes with Shift held or not |
| KeyboardSpec.SilentBytes | src/keyboard.c:113-132 | no break code, prefix or swallowed byte types a character |
| KeyLayout.TablesAreLayout | src/keyboard.c:58-92 | both tables hold, for every scancode, the rows of keys from left to right, without and with Shift, and the keypad |
| KeyLayout.ShiftCapitalizes | src/keyboard.c:58-92 | Shift turns each letter into its capital and no other key into one |
| KeyRing.StartHolds | src/keyboard.c:41-43 | the zeroed ring satisfies the invariant that all interleavings keep |
| KeyRing.DropsIff | src/keyboard.c:140-144 | a character is dropped exactly if 63 are not yet retired |
| KeyRing.RefinesQueue | src/keyboard.c:140-157 | each load, store or interrupt is a step of a queue of capacity 63 or leaves it alone, and a call ends exactly with its last store or with a test that finds the ring empty |
| KeyRing.EmptyIsEmpty | src/keyboard.c:149-152 | kb_get finds the ring empty exactly if everything accepted when it loaded the head was delivered, in either order of its two loads |
| KeyRing.CallDelivers | src/keyboard.c:149-157 | a call that starts when characters wait delivers the first of them after its six loads and stores, whatever interrupts strike in between |
| KeyRing.Interleavings | src/keyboard.c:27-43 | under every interleaving the delivered characters are a prefix of the accepted ones and no waiting slot is overwritten |
| KeyStream.BytesToCharacters | src/keyboard.c:99-157 | over every interleaving of scancode bytes with the loads and stores of kb_get, the characters found are those of the two passes, those accepted are exactly the ones that came with fewer than 63 waiting, and those delivered are their beginning |
| KeyStream.StartIsQuiet | src/keyboard.c:41-43 | the zeroed driver is a state such runs start from |
| Keyboard.Keyboard.Handler | src/keyboard.c:99-147 | the handler is the state machine followed by the ring's producer |
| Keyboard.Keyboard.KbGet | src/keyboard.c:149-157 | uninterrupted, it is the six loads and stores of `KeyRing`, and removes and returns the front of the queue, or -1 |
| Terminal.Entry | src/vga.c:22-24 | character in the low byte; the colour is in the high byte exactly for 7-bit characters, or if it is 255, which is what every other character leaves there |
| Terminal.ClearedShows | src/vga.c:76-81 | after clearing, the buffer shows a fresh page |
| Terminal.PutShows | src/vga.c:90-104 | each character does to the window what it does to a page that never scrolls |
| Terminal.CursorMoves | src/vga.c:90-104 | a tab goes to the next multiple of 8, a printed character to the cell at the cursor, the others where their names say |
| Terminal.StreamShows | src/vga.c:27-104 | after every stream of 8-bit characters and colours the buffer and cursor are the bottom window of that page |
| Terminal.LinesAboveStay | src/vga.c:26-44 | lines above the cursor never change again |
| Vga.Vga.Scroll | src/vga.c:27-34 | the copy and fill loops shift the buffer up by one line |
| Vga.Vga.Newline | src/vga.c:37-44 | the in-place code is `NewLine` |
| Vga.Vga.Clear | src/vga.c:76-81 | the buffer is blank in the current colour and the cursor home |
| Vga.Vga.Putchar | src/vga.c:90-104 | the in-place code is `PutChar`; every write and the cursor stay in range |

## Left out

- Interrupt gates, the PIC, port I/O and the main loop's sleep (`src/idt.c`, `src/irq.c`, `src/pic.c`, `src/kernel.c:150-167`): thin layers over hardware; the claim that the loop never sleeps with data pending is not made.
- Self-tests, diagnostic printing, `vga_printf` and the hardware cursor: they print or check and keep no state of interest.
- Accessed and dirty bits, paging-structure caches, write protection, user mode and no-execute: the code does not use them.
- Reclaiming tables and spaces: the code never does.
- Recursion of the fault handler: a fault inside it is refused by `vm_in_fault`, which is modelled; the nested delivery itself is not.
- KernelHeap.KernelHeap.Kfree: what happens after it goes astray - from a header that is not a cell, or by a forged size that leads to one or wraps round 64 bits - is not followed.
- KernelHeap.KernelHeap.Check: the page behind the region is taken to be unmapped, so a header that reaches past the end stops the kernel.
- BootInfo.Mb2Init: addresses so high that adding a 32-bit size to them wraps round 64 bits are not modelled.
- PmmBoot.EnsureMapped: links must lead to frames below 1GB, the memory the model has; the test for a directory index of 512 or more is not repeated, since the range was already found to lie below 1GB.
- PmmBoot.ExtendIdentity: links must lead to frames below 1GB.
- PmmBoot.PmmInit: the links it follows must lead to frames below 1GB, the memory the model has.
- HeapOnRegion.ArenaOnRegion: a header is read and written as two 64-bit words, where the code reads and writes its fields one by one.
- Keyboard.Keyboard.KbGet: states the uninterrupted call; interrupted ones are the subject of `KeyRing` and `KeyStream`.
