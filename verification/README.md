# A verified model of the loris kernel's memory, scheduling and ramdisk

loris is a small i386 kernel.  This project models its stateful components in Dafny and proves
what they keep over every sequence of operations: the boundary-tag heap with its sorted index of
holes, the frame bitmap, two-level page tables and the cloning of address spaces, the round-robin
scheduler with fork, the initial ramdisk, and `printf`.

| file | what it models |
|---|---|
| `Memory.dfy` | byte memory, little-endian 32-bit words, page arithmetic |
| `OrderedList.dfy` | `Util/OrderedList.h`, on an array, loop for loop |
| `BoundaryTags.dfy` | the heap's layout: chunks with header and footer, tilings, the heap invariant `Consistent` |
| `HeapSteps.dfy` | what allocation, freeing, growing and cutting do to a tiling |
| `Heap.dfy` | `kernel/Heap.cpp`, in place on memory and index, proved to take exactly those steps |
| `HeapAsWritten.dfy` | sizes and extents where the text of `kernel/Heap.cpp` departs from its comments: exactly when it still does what is meant, and inputs on which it does not |
| `RawTags.dfy` | tags read and written unchecked, and when memory, index and extent make a heap with given blocks live |
| `Growing.dfy` | the constructor's first hole and the growing of the heap, as written |
| `Placing.dfy` | the search for an aligned fit and the placing of a block, as written |
| `Allocating.dfy` | one whole call of `Heap::Alloc` as written |
| `Clearing.dfy` | clearing memory inside the heap, and what it does to a new page table's neighbours |
| `Freeing.dfy`, `FreeOutcomes.dfy`, `FreeSamples.dfy` | the whole of `Heap::Free` as written: its steps, its outcome in every case, and heaps on which it fails |
| `Frames.dfy` | the frame bitmap of `kernel/paging.cpp` |
| `PageTables.dfy` | the bump path of `kmalloc`, `get_page`, the boot-time identity map |
| `AddressSpaces.dfy` | `clone_directory` and `clone_table` |
| `Walks.dfy` | what the processor finds by the physical addresses of a clone |
| `Tasks.dfy` | `kernel/Task.cpp`: runs of forks and switches, and the linked queue that takes these steps |
| `Printf.dfy`, `Strings.dfy`, `RamDisk.dfy` | `printf`, `strcmp`, `strcpy`, the initial ramdisk |

State that the kernel changes in place is changed in place here too: classes over arrays, each
method proved against a function or relation on values, and the theorems proved about those.

## The heap

`Heaps.Heap.Valid` says: the mapped pages are exactly `[start, end)`, a whole number of pages, at
least 0x70000 bytes and at most up to the maximum; this range is tiled by chunks of at least 20
bytes whose headers and footers are in memory; no two holes are adjacent; and the index holds
every hole once and nothing else, sorted by size.  The constructor, `Alloc` and `Free` establish
and keep it, so it holds over every run, through growth, cutting and all cases of merging.  The
frame count is conserved: free frames plus mapped pages never change in total.

The class follows the algorithm that the comments describe.  It differs from the text of
`kernel/Heap.cpp` as follows.  The text itself is modelled as well, literally; each item names the
theorem that says exactly when the text does what is meant, and the theorem's neighbour in the table
shows an input on which it does not.  Where a whole step is concerned, "what is meant" is
`RawTags.SoundWith`: memory, index and extent are a heap, without adjacent holes, in which exactly the
right blocks are live.

- Lines 16 and 273: `x & 0xFFFFF000 != 0` is `x & 1` to the compiler.  The class rounds up to a page.  `RoundingExact`
- Lines 24-26: the maximum overwrites the start address, and the two flags are assigned to themselves.  The class stores the maximum, and growing respects it; the text never looks at it.  `FieldsExact` for the members, `EndExact` for the end after growing
- Lines 28-33: the footer of the first hole is not written.  The class writes it.  `SetUpExact`
- Line 40: the requested size can wrap at 32 bits.  In the class sizes do not wrap, and a request that large is refused.  `RequestExact`
- Lines 53-90: the hole with the highest address is stretched even if it does not touch the old end, and keeps its place in the index.  The class stretches it only if it does, otherwise starts a new hole at the old end, and indexes the result anew.  `GrowthExact` for the overlap, `GrowExact` for the whole step
- Lines 44-92: running out of address space or frames makes the kernel hang.  The class returns 0.
- Lines 98-120: slack is compared before the block has moved to its page boundary, the front gap may be too small for a hole, and the shrunk front hole keeps its place in the index.  The class computes the gap first (none, or at least 20 bytes), then the slack, and the index entry of the old hole always goes.  `CutExact` for the sizes, `AlignedExact` for the whole step; `UnalignedPlaces` shows that unaligned placement is right as it is; `AllocExact` puts search and placing together, `UnalignedExact` a whole unaligned call with growing
- Lines 245-252: the offset is left out at even addresses, and at odd ones the difference may wrap.  The class asks for gap and block together.  `FitExact` for one hole, `SearchExact` for the search
- Lines 174 and 187: the neighbours are probed without regard to the heap's ends.  The class looks only inside the heap.
- Lines 180 and 190: an indexed hole grows without being sorted again.  The class takes it out and inserts it again.
- Lines 191-193: the comment announces a rewritten footer that is not written.  The class writes it.
- Line 203: a search that finds nothing drops the last entry, or makes the list's size wrap.  The class searches for holes that are there.
- Lines 211-233: the remnant may be smaller than its tags, the wrong header is searched for, and a hole that has vanished is inserted.  The class keeps one more page in the first case and indexes what is left, if anything.  `FreeExact` covers this and the four items before it
- Lines 294-308: rounding uses the mask 0x1000, and the page at the new end stays mapped.  The class rounds up and unmaps every page from the new end on.  `KeptExact`, `UnmappedExact`

`Util/OrderedList.h` is modelled as it is.  `Insert` does not check the capacity and `Remove` reads
one slot past the last element; both need a spare slot, which is a precondition here.

## Paging

- `free_frame` passes a frame number where an address is expected (`kernel/paging.cpp:96`).  `FreeFrame` passes the address; `FreeFrameAsWritten` and `FreeFrameExact` show that the text never frees the right bit.
- `first_frame` never returns -1 although its caller expects it (lines 42-60); here it does.  `FirstFrameAsWritten` leaves the result open instead, and says when it is a free frame.
- The bitmap is allocated with a word count taken for a byte count (lines 144-145); the class has the words, and `BitmapSizeExact` says which frames the bytes cover.
- Frame 0 stands for "no frame" (lines 64 and 236), so it has to stay in use once page 0 has it.  Cloning requires that.
- Cloned pages come out present and user-accessible whatever the source page was (lines 240-251): `CloneFlagsExact` and `CloneReadsExact` say when that makes a difference.
- `clone_table` clears the size of a whole directory, 0x2004 bytes, in a block allocated for one page (line 230).  `CloneTable` clears the table alone.  `ClearExact` says when clearing leaves the heap, `NewTableExact` that clearing a freshly allocated table as written never does, and `TablesBehindExact` what it does to the tables behind.
- Once there is a heap, `kmalloc` no longer reports a physical address, so those of a clone and of its own tables are what the stack held (`kernel/kmalloc.cpp:12-15`, `kernel/paging.cpp:191-200` and `217-219`).  `CloneDirectory` takes them as arguments; `CopiedSlotExact` and `CloneWalkExact` say when the processor finds the clone by them.  Reading as in `CloneReadsExact` goes by the kernel's pointers.
- The alignment test of `kmalloc` looks at the high bits, so an aligned address is moved too, and one inside the first page is not: `AlignedExact`.

## Scheduler

A switch saves the registers of the current task, advances, and loads those of the next.  The
comment in `kernel/Task.cpp:120-125` describes a resumed task that recognises itself by a dummy
value; that comparison is missing from the code, and the dummy value from `kernel/PagingAssembly.S:42`,
which leaves the directory's physical address in the register.  `SwitchTask` is the switch as described;
`ResumedExact` says what happens to a resumed task's context without the comparison.

## Model

| member | source | states |
|---|---|---|
| OrderedLists.OrderedList.constructor | Util/OrderedList.h:33-40 | a new list is empty and has the given capacity |
| OrderedLists.OrderedList.GetItemAtIndex | Util/OrderedList.h:42-45 | gives the element at an index of the list |
| OrderedLists.OrderedList.Insert | Util/OrderedList.h:47-67 | the shifting loop puts the item before the first element not less than it and moves the others up, unchanged |
| OrderedLists.OrderedList.Remove | Util/OrderedList.h:69-77 | the shifting loop takes out exactly the element at the index |
| OrderedLists.InsertSorts | Util/OrderedList.h:47-67 | inserting keeps a sorted list sorted and adds exactly one item to its multiset |
| OrderedLists.RemoveSorts | Util/OrderedList.h:69-77 | removing keeps a sorted list sorted and takes exactly one item from its multiset |
| OrderedLists.InsertThenRemove | Util/OrderedList.h:47-77 | removing at the insertion point undoes an insertion |
| BoundaryTags.WalkIsUnique | kernel/Heap.h:13-24 | the headers in memory determine the tiling: two walks over the same range find the same chunks |
| BoundaryTags.TagLayout | kernel/Heap.h:10-24 | the tags of a chunk byte by byte: magic, hole flag and size in front, magic and the header's address behind |
| BoundaryTags.Disjoint | kernel/Heap.h:13-24 | two different chunks of a tiling share no byte |
| BoundaryTags.Indexed | kernel/Heap.cpp:170-203 | every index entry is a hole of the tiling and its header tells the hole's size |
| BoundaryTags.HasEntry | kernel/Heap.cpp:194-203 | every hole has an index entry, so the search in Free finds it |
| BoundaryTags.Rewrite | kernel/Heap.cpp:107-151 | chunks replaced over the same range, with memory changed only there, leave all other tags, the tiling and the order of the index intact |
| HeapSteps.Gap | kernel/Heap.cpp:107-119 | the front gap is none or big enough for a hole, and brings the payload onto a page |
| HeapSteps.GapLeast | kernel/Heap.cpp:107-119 | no smaller gap would do, so a block whose payload is on a page already gets none |
| HeapSteps.FitsExact | kernel/Heap.cpp:242-255 | a hole fits if and only if it can take the block behind some gap, none or a hole's worth, that aligns it |
| HeapSteps.FitsSomeExact | kernel/Heap.cpp:236-263 | the same for a whole tiling |
| HeapSteps.ChosenIsLeast | kernel/Heap.cpp:238-257 | the chosen hole can take the block, and no hole that can is smaller |
| HeapSteps.BlockSize | kernel/Heap.cpp:98-105 | the block is big enough, and what is left over is nothing or big enough for a hole |
| HeapSteps.KeptLength | kernel/Heap.cpp:291-311 | the kept length is whole pages, at least the minimum, never cuts what lies before, and leaves no remnant too small for its tags |
| HeapSteps.KeptFits | kernel/Heap.cpp:291-311 | cutting never makes the heap longer |
| HeapSteps.KeptLeast | kernel/Heap.cpp:291-311 | no shorter length would be right, so a hole is cut as far as whole pages, the minimum and its own tags allow |
| HeapSteps.CarvedNoAdjacent | kernel/Heap.cpp:95-151 | carving a block out of a hole creates no adjacent holes |
| HeapSteps.CoalescedNoAdjacent | kernel/Heap.cpp:170-204 | merging a freed block with its neighbours leaves no adjacent holes |
| HeapSteps.GrownNoAdjacent | kernel/Heap.cpp:53-90 | growing creates no adjacent holes |
| HeapSteps.CutNoAdjacent | kernel/Heap.cpp:205-230 | cutting the last hole creates no adjacent holes |
| HeapSteps.SettledTrims | kernel/Heap.cpp:205-230 | a merged hole inside the heap stays; one at the end is cut to the least right length, and dropped if nothing of it is left |
| HeapSteps.ReleasedLength | kernel/Heap.cpp:205-230 | freeing leaves the heap's length alone unless the merged hole is last, and then makes it no longer than any right length |
| HeapSteps.CarvedConsistent | kernel/Heap.cpp:107-151 | writing front hole, block and rest keeps tags, tiling and index consistent |
| HeapSteps.JoinedConsistent | kernel/Heap.cpp:172-204 | writing one hole over two adjacent ones keeps tags, tiling and index consistent |
| HeapSteps.CutConsistent | kernel/Heap.cpp:205-230 | cutting the last hole back keeps tags, tiling and index consistent |
| HeapSteps.JoinsCoalesce | kernel/Heap.cpp:168-204 | marking, joining left and joining right is, in all four cases, merging the whole run of neighbours at once |
| HeapSteps.CarveThenCoalesce | kernel/Heap.cpp:98-151 | freeing a block just carved out of a hole restores the tiling, with or without front hole, rest or absorbed slack |
| HeapSteps.AllocThenFree | kernel/Heap.cpp:95-234 | freeing what was just placed restores the tiling exactly, unless the hole is the last chunk and is then cut like any final hole |
| HeapSteps.PlacedThenReleased | kernel/Heap.cpp:95-234 | the same from what allocation promises to what freeing starts from, and the live blocks are the ones from before |
| HeapSteps.LiveCarved | kernel/Heap.cpp:126-134 | carving adds exactly the new block to the live ones |
| HeapSteps.LiveReleased | kernel/Heap.cpp:156-234 | freeing removes exactly the freed block from the live ones, cut or not |
| HeapSteps.LiveGrown | kernel/Heap.cpp:53-90 | growing changes no live block |
| HeapSteps.PlaceUntouched | kernel/Heap.cpp:107-151 | writing inside the chosen hole touches no byte of a live block |
| HeapSteps.ReleaseUntouched | kernel/Heap.cpp:168-233 | writing inside the merged hole touches no byte of a block that stays live |
| HeapSteps.GrowUntouched | kernel/Heap.cpp:53-90 | writing from the last hole on touches no byte of a live block |
| HeapSteps.PlacedBlock | kernel/Heap.cpp:95-153 | the placed block is new, large enough, and aligned if asked for |
| HeapSteps.Endmost | kernel/Heap.cpp:53-67 | the index entry with the greatest address is the last chunk exactly when it touches the heap's end |
| HeapSteps.GrowStep | kernel/Heap.cpp:44-92 | one round of growing and retrying is one step of the growth computed beforehand from the tiling |
| HeapSteps.GrowthBound | kernel/Heap.cpp:44-92 | one expansion is enough for an unaligned request and three for an aligned one; growth is whole pages |
| HeapSteps.OutcomeBounds | kernel/Heap.cpp:42-93 | nothing grows when a hole can take the block; otherwise one expansion by the need in whole pages, or up to three for an aligned request, and failure only without address space or frames for them |
| Heaps.FirstFitIsBest | kernel/Heap.cpp:236-263 | in the sorted index the first entry that fits is a smallest hole that fits; none is found exactly when none fits |
| Heaps.Heap.constructor | kernel/Heap.cpp:9-34 | one hole over the whole range behind the index; the heap is valid |
| Heaps.Heap.FindSmallestHole | kernel/Heap.cpp:236-263 | -1 exactly when no hole can take the block behind any gap that aligns it, otherwise a least hole of those that can |
| Heaps.Heap.Expand | kernel/Heap.cpp:270-289 | maps exactly the pages up to the rounded length, or changes nothing when address space or frames do not suffice; frames are conserved |
| Heaps.Heap.Contract | kernel/Heap.cpp:291-311 | unmaps exactly the pages from the new end on; frames are conserved |
| Heaps.Heap.EndmostEntry | kernel/Heap.cpp:53-67 | the entry with the greatest address, -1 for an empty index |
| Heaps.Heap.AttachTail | kernel/Heap.cpp:69-90 | fresh pages become part of the last hole if that touches the old end, otherwise a hole of their own, and the index stays sorted |
| Heaps.Heap.Grow | kernel/Heap.cpp:44-90 | the heap grows by the needed bytes rounded up to pages, exactly when that fits; otherwise nothing changes |
| Heaps.Heap.Measure | kernel/Heap.cpp:95-120 | front gap, block and rest add up to the hole and each is none or large enough for its tags |
| Heaps.Heap.CarveOut | kernel/Heap.cpp:107-151 | the chosen hole becomes front hole, block and rest, which partition it exactly |
| Heaps.Heap.Place | kernel/Heap.cpp:95-153 | places the block in the chosen hole, changing memory only there, and keeps the heap valid |
| Heaps.Heap.PlaceBest | kernel/Heap.cpp:42-153 | places the block in a smallest fitting hole, exactly when there is one |
| Heaps.Heap.Alloc | kernel/Heap.cpp:36-154 | succeeds exactly when the growth it needs fits into address space and frames, without growing when a hole can take the block and within bounds otherwise; then the block lies in a smallest fitting hole, is aligned if asked for, and no other live block changes in place, size or content |
| Heaps.Heap.AllocFree | kernel/Heap.cpp:36-234 | allocating and freeing at once, without growth, restores the tiling (so the index holds the same holes), a final hole alone being cut to the least right length, and changes no live block |
| Heaps.Heap.LeftHole | kernel/Heap.cpp:171-178 | the footer before a header leads to a hole exactly when the left neighbour is one |
| Heaps.Heap.RightHole | kernel/Heap.cpp:184-188 | the header behind a chunk is a hole's exactly when the right neighbour is one |
| Heaps.Heap.MarkHole | kernel/Heap.cpp:161-168 | the block's header turned into a hole's |
| Heaps.Heap.UnifyLeft | kernel/Heap.cpp:171-182 | joins with a hole on the left exactly when there is one |
| Heaps.Heap.UnifyRight | kernel/Heap.cpp:184-204 | joins with a hole on the right exactly when there is one |
| Heaps.Heap.RemoveEntry | kernel/Heap.cpp:194-203 | the search finds the hole's entry and takes out exactly that |
| Heaps.Heap.CutTail | kernel/Heap.cpp:205-230 | gives pages back and resizes or drops the last hole |
| Heaps.Heap.Free | kernel/Heap.cpp:156-234 | merges the block with its neighbours, removes exactly this block from the live ones and changes no other, keeps the heap valid, and gives pages back exactly when the merged hole is last, as many as whole pages, the minimum and the hole's tags allow; a null pointer changes nothing |
| HeapAsWritten.RoundingExact | kernel/Heap.cpp:272-277 | rounding as written is right exactly for page multiples and for odd lengths below the last page |
| HeapAsWritten.RoundingFails | kernel/Heap.cpp:272-277 | an even request on which the new end is not on a page |
| HeapAsWritten.FieldsExact | kernel/Heap.cpp:21-26 | the members are the meant ones exactly when the maximum is the start and memory held the other three before; the length is then wrong by a wrap for every proper heap |
| HeapAsWritten.FieldsFail | kernel/paging.cpp:182-183 | with the kernel's own arguments the heap starts at its maximum and is almost 4 GB long |
| HeapAsWritten.EndExact | kernel/Heap.cpp:270-288 | the end after growing is the meant one, within the maximum, exactly when the bytes needed are whole pages or odd and the maximum leaves room for them |
| HeapAsWritten.EndFails | kernel/Heap.cpp:270-288 | a request that takes the kernel's heap beyond its maximum |
| HeapAsWritten.RequestExact | kernel/Heap.cpp:39-40 | adding the tags' size wraps exactly from 0xFFFFFFEC on, and the sum is then smaller than the tags |
| HeapAsWritten.RequestFails | kernel/Heap.cpp:39-40 | a request of almost 4 GB that becomes one of 14 bytes |
| HeapAsWritten.KeptExact | kernel/Heap.cpp:293-301 | the kept length as written is the right one exactly for short offsets that need no correction and for page multiples with bit 12 clear |
| HeapAsWritten.KeptSafe | kernel/Heap.cpp:293-301 | as written, nothing before the cut is lost exactly for short offsets or with bit 12 clear |
| HeapAsWritten.KeptFails | kernel/Heap.cpp:293-301 | an offset for which live memory is cut off |
| HeapAsWritten.Unmap | kernel/Heap.cpp:302-308 | the loop as written frees exactly the pages whose offsets, counted down from the old length by whole pages, lie strictly above the new length |
| HeapAsWritten.UnmappedExact | kernel/Heap.cpp:302-308 | for all lengths: these are the pages from the new end on exactly when the old length is whole pages and the new one is the same or is not, or both lie in one broken page |
| HeapAsWritten.UnmappedFails | kernel/Heap.cpp:302-308 | cutting by one page unmaps nothing |
| HeapAsWritten.CutExact | kernel/Heap.cpp:97-143 | as written, front hole, block and rest partition the hole exactly when the front gap can hold tags and the hole fits precisely or with room for one more hole |
| HeapAsWritten.CutFails | kernel/Heap.cpp:97-143 | a fitting hole for which the rest gets a size of almost 4 GB |
| HeapAsWritten.GrowthExact | kernel/Heap.cpp:53-90 | the stretched hole stays clear of the live blocks exactly when it is the last chunk |
| HeapAsWritten.GrowthFails | kernel/Heap.cpp:53-90 | a hole that covers the live block behind it |
| Growing.SetUpExact | kernel/Heap.cpp:28-33 | the constructed heap is one exactly when the footer of its hole happens to be in memory already |
| Growing.SetUpFails | kernel/Heap.cpp:28-33 | in cleared memory it is none |
| Growing.GreatestHole | kernel/Heap.cpp:53-67 | the entry with the greatest address is the last hole of the tiling, and blocks follow it |
| Growing.GrowExact | kernel/Heap.cpp:53-90 | whatever the fresh pages hold, growing leaves a heap without adjacent holes and with the same blocks live exactly when there was no hole, or the last chunk is one and keeps its place in the index at its new size |
| Growing.GrowFails | kernel/Heap.cpp:53-90 | a heap whose last hole outgrows the other one and leaves the index out of order |
| Placing.FitExact | kernel/Heap.cpp:243-253 | the aligned fit test tells the truth about a hole exactly when its offset makes no difference or the wrapped difference is still too small |
| Placing.FitFails | kernel/Heap.cpp:243-253 | a hole accepted because of the wrap, and one accepted because alignment is forgotten |
| Placing.SearchExact | kernel/Heap.cpp:236-263 | the search finds the first hole that fits, or none, exactly when the test tells the truth about every entry up to the one it stops at, which the unaligned test always does |
| Placing.UnalignedPlaces | kernel/Heap.cpp:95-153 | in every hole it fits into, an unaligned block is placed as meant by the text as it is, and no holes become adjacent |
| Placing.AlignedExact | kernel/Heap.cpp:95-153 | an aligned block becomes one new live block of a heap without adjacent holes exactly when the front gap can hold a hole, the hole is used up or has room for one more, and the front hole keeps its place in the index |
| Placing.PlaceFails | kernel/Heap.cpp:107-151 | parts that fit, and a front hole of 52 bytes left behind an entry of 256 |
| Allocating.SearchIsBest | kernel/Heap.cpp:236-263 | where the test tells the truth, the search as written finds a smallest hole that fits, or none exactly when there is none |
| Allocating.AllocExact | kernel/Heap.cpp:36-154 | a call that finds a hole makes one new live block of at least the requested size, on a page if asked for, exactly when the size does not wrap and, for an aligned one, the pieces fit and the front hole keeps its place |
| Allocating.UnalignedExact | kernel/Heap.cpp:36-154 | a whole unaligned call, growing included, does so exactly when the size does not wrap and a hole fits, or there is none, or the last chunk is one; an entry left out of order by growing does no harm |
| Allocating.AllocHeals | kernel/Heap.cpp:36-154 | a heap that growing leaves out of order and the rest of the call puts right |
| Allocating.AllocFails | kernel/Heap.cpp:36-154 | a heap whose last live block is handed out a second time |
| Clearing.PayloadIsFree | kernel/Heap.h:13-24 | the owner of a block may write whatever it likes between the tags: tags, tiling, index and live blocks stay |
| Clearing.ClearExact | kernel/paging.cpp:228-230 | clearing from the start of a block's payload leaves the heap with the same blocks live if and only if it ends before the footer |
| Clearing.TableClearFails | kernel/paging.cpp:228-230 | in any heap, clearing a directory's worth of bytes in a block for a table leaves none |
| Clearing.NewTableExact | kernel/paging.cpp:228-230 | of a table allocated as written in any heap, up to a page may be cleared and no more |
| Clearing.TablesBehindExact | kernel/paging.cpp:228-230 | the clearing spares the entries of another table exactly unless that lies on one of the next two pages with something to lose, any of its entries or its first |
| Clearing.ClearFails | kernel/paging.cpp:228-230 | a heap with a table in it that survives the clearing of a page and not that of a directory's worth of bytes |
| Freeing.FreeInsideExact | kernel/Heap.cpp:162-204 | inside the heap, freeing leaves a heap, merged and without just the freed block, when there is no hole on the right and a hole on the left, once grown, keeps its place in the index; otherwise what is left is no heap at all |
| Freeing.FreeAtEndExact | kernel/Heap.cpp:162-233 | the same at the heap's end, when the merged hole starts early enough below the minimum length to keep room for its tags and a hole on the left, cut or grown, keeps its place in the index; a wrong footer on the right is then healed by the cut |
| FreeOutcomes.StaleFooterFails | kernel/Heap.cpp:171-182 | what looks like a hole's footer before the heap makes the first block get lost |
| FreeOutcomes.StaleHeaderExact | kernel/Heap.cpp:184-233 | what looks like a hole's header behind the heap spoils freeing the last block, exactly except when it has size 0 and the entry it drops is that of the merged hole, which the cut makes vanish; then no holes are adjacent either |
| FreeOutcomes.FreeExact | kernel/Heap.cpp:156-234 | for every block of every heap, whatever lies next to it: freeing as written leaves a heap without adjacent holes, with all other blocks live and this one gone, if and only if the condition of its case holds |
| FreeSamples.FreeFails | kernel/Heap.cpp:162-204 | a heap in which freeing one block leaves a wrong footer, freeing another an index out of order, and freeing the last one works |
| FreeSamples.StaleHeaderFails | kernel/Heap.cpp:184-203 | the same heap with the header of a cut-off hole still behind it: freeing the last block no longer works |
| FreeSamples.CutFails | kernel/Heap.cpp:205-233 | a last block beyond the minimum length, whose entry stays in the index after it has been cut away |
| FreeSamples.StaleFooterSample | kernel/Heap.cpp:171-182 | a heap whose first block joins a footer left before it |
| Frames.OneBit | kernel/paging.cpp:18-40 | setting or clearing a bit of a word changes this bit and no other |
| Frames.MaskSteps | kernel/paging.cpp:18-40 | frame 0 has a word's lowest bit, and every next frame the next higher one |
| Frames.SetInBitmap | kernel/paging.cpp:18-24 | setting a frame's bit adds exactly this frame to the set the words stand for |
| Frames.ClearInBitmap | kernel/paging.cpp:26-32 | clearing a frame's bit removes exactly this frame |
| Frames.FrameBitmap.SetFrame | kernel/paging.cpp:18-24 | adds the frame of an address |
| Frames.FrameBitmap.ClearFrame | kernel/paging.cpp:26-32 | removes the frame of an address |
| Frames.FrameBitmap.TestFrame | kernel/paging.cpp:34-40 | tells whether the frame of an address is in use |
| Frames.FrameBitmap.FirstFrame | kernel/paging.cpp:42-60 | the least free frame, -1 exactly when there is none |
| Frames.FrameBitmap.FirstFrameAsWritten | kernel/paging.cpp:42-60 | without a free frame the result is whatever the register held; it is a free frame exactly when there is one, and then the least |
| Frames.FrameBitmap.AllocFrame | kernel/paging.cpp:62-84 | a page without a frame gets the least free one, and no other page changes; no non-zero frame comes to belong to two pages |
| Frames.FrameBitmap.FreeFrame | kernel/paging.cpp:86-99 | the page loses its frame, which is free again, and ownership stays unique |
| Frames.FrameBitmap.OnlyOwner | kernel/paging.cpp:62-99 | a page with a frame is the only one that has it |
| Frames.FrameBitmap.FreeFrameAsWritten | kernel/paging.cpp:86-99 | with the frame number taken for an address, another frame's bit is cleared; no other page of the table changes |
| Frames.FreeFrameExact | kernel/paging.cpp:86-99 | what `FreeFrameAsWritten` frees is what `FreeFrame` does exactly for a page without a frame, or when neither frame is in use |
| Frames.FreeFrameFails | kernel/paging.cpp:86-99 | freeing frame 5 leaves it in use and takes frame 0 out of use |
| Frames.BitmapSizeExact | kernel/paging.cpp:143-145 | of the frames, exactly the first quarter has its bits inside the memory allocated for the bitmap |
| Frames.BitmapSizeFails | kernel/paging.cpp:143-145 | of the kernel's 4096 frames, the bit of frame 1024 lies behind the bitmap |
| PageTables.AlignedExact | kernel/kmalloc.cpp:17-22 | an aligned allocation is aligned exactly from the second page on, or at address 0 |
| PageTables.AlignedIs | kernel/kmalloc.cpp:17-22 | unaligned allocations go where the last one ended; aligned ones, outside the first page, to the page behind |
| PageTables.AlignedFails | kernel/kmalloc.cpp:17-22 | an address inside the first page that stays unaligned |
| PageTables.HandedOutApart | kernel/kmalloc.cpp:17-29 | over a whole run of allocations no two pieces overlap |
| PageTables.SlotExact | kernel/paging.cpp:115-121 | two addresses share a slot of the two-level table exactly when they share a page; the slot is the address's ten high bits and the next ten |
| PageTables.FlagsExact | kernel/paging.cpp:128 | present, writable and user are set, and the rest is the address's |
| PageTables.Boot.KMalloc | kernel/kmalloc.cpp:17-29 | hands out the placement address, aligned as the text does it, and moves it past the piece |
| PageTables.Boot.GetPage | kernel/paging.cpp:113-135 | finds the slot of an address; making a missing table changes no translation and no other table |
| PageTables.Boot.MapPage | kernel/paging.cpp:165-170 | one round of the boot loop maps page k to frame k, and the placement address moves by at most two pages for a table that is new |
| PageTables.Boot.MapIdentity | kernel/paging.cpp:164-170 | the loop ends although its bound moves; then page k is mapped to frame k below the final bound, present, read-only and for users, every page from there on is empty, and just these frames are in use |
| AddressSpaces.Machine.CopyFlags | kernel/paging.cpp:241-251 | sets every flag the source has and clears none |
| AddressSpaces.Machine.CloneEntry | kernel/paging.cpp:239-253 | a fresh frame with the source's contents; frames in use before keep theirs |
| AddressSpaces.Machine.CloneTable | kernel/paging.cpp:225-256 | with just the new table cleared, every entry is cloned, on frames all different; nothing in use before changes |
| AddressSpaces.Machine.CloneSlot | kernel/paging.cpp:203-221 | one table skipped, shared or copied, keeping what was cloned before |
| AddressSpaces.Machine.SlotsCloned | kernel/paging.cpp:203-221 | after the last round, a slot shares the source's table if and only if the kernel does |
| AddressSpaces.Machine.CloneDirectory | kernel/paging.cpp:189-223 | a slot has no table if the source's has none, the source's own table and physical entry if that is the kernel's, and otherwise another table, a clone on fresh frames; the source is unchanged; the directory's physical address and the entries of the copied tables are made of what the stack held |
| AddressSpaces.SourceUnchanged | kernel/paging.cpp:189-256 | cloning changes nothing that the source reads |
| AddressSpaces.CloneReadsExact | kernel/paging.cpp:189-256 | by the kernel's pointers, a page reads the same through clone and source exactly when it is shared, or present if and only if it has a frame |
| AddressSpaces.CloneReadsFail | kernel/paging.cpp:236-237 | a page present on frame 0 that the clone does not have |
| AddressSpaces.CloneFlagsExact | kernel/paging.cpp:239-251 | the clone's flags include the source's, and equal them exactly for present user pages |
| AddressSpaces.CloneFlagsFail | kernel/paging.cpp:239-251 | a supervisor page that becomes a user page |
| AddressSpaces.CloneWriteIsolated | kernel/paging.cpp:239-253 | a write through a private page of the clone never changes what the source reads |
| AddressSpaces.SourceWriteExact | kernel/paging.cpp:203-253 | a write through a private page of the source changes what the clone reads exactly at shared present pages with the same frame |
| AddressSpaces.SourceWriteFails | kernel/paging.cpp:203-253 | a write to a private page that shows through a kernel page on the same frame |
| AddressSpaces.CloneFramesDistinct | kernel/paging.cpp:239-240 | no two private pages of the clone have the same frame |
| Walks.SlotExact | kernel/paging.cpp:203-221 | the processor finds the same entries as the kernel in a slot exactly when its physical entry leads to a table with the same contents |
| Walks.CopiedSlotExact | kernel/paging.cpp:214-220 | for a copied table that is so exactly when the stack held its frame, or nothing is found and the table is empty |
| Walks.OtherSlotsExact | kernel/paging.cpp:205-213 | a slot without a table is right, and a shared one is right exactly where the source's is |
| Walks.CloneWalkExact | kernel/paging.cpp:191-200 | through the clone's own physical address the processor sees the whole clone exactly when what lies one page above what the stack held leads, slot by slot, to its contents |
| Walks.WalkFails | kernel/paging.cpp:191-220 | with zero left on the stack the processor sees no page, by the table's entry or by the directory's address |
| Tasks.RunKeepsSound | kernel/Task.cpp:50-140 | over every run the current task is in the queue, process numbers follow the order of creation, and the current directory is the current task's |
| Tasks.ReachableSound | kernel/Task.cpp:26-140 | so it is in every state reached from the first task |
| Tasks.PidsExact | kernel/Task.cpp:62 | process numbers are unique exactly as long as the 32-bit counter has not come round |
| Tasks.ContextsKept | kernel/Task.cpp:76-140 | over every run, every task but the current one has a saved context, and the queue holds it |
| Tasks.DirectoriesKept | kernel/Task.cpp:58-65 | over every run, every task keeps the directory it was given, the first its own and every other the clone made at its fork |
| Tasks.ResumesWhereSaved | kernel/Task.cpp:123-140 | a switch resumes a task with exactly the registers last saved for it |
| Tasks.ResumedExact | kernel/Task.cpp:120-128 | without the comparison, a resumed context survives exactly when EAX happens to hold its instruction pointer |
| Tasks.ResumedFails | kernel/Task.cpp:120-128 | two tasks: the resumed one loses its instruction pointer to the directory address left in EAX and does not run |
| Tasks.WaitAhead | kernel/Task.cpp:130-134 | a task further down the queue runs after exactly as many switches as it is places away, whatever forks come between |
| Tasks.BoundedWait | kernel/Task.cpp:68-74 | under any interleaving a task first runs again after exactly its distance in switches plus one for each fork taken before the queue comes round |
| Tasks.WaitExact | kernel/Task.cpp:103-140 | it runs again within a sequence of events if and only if that has so many switches |
| Tasks.NoDelayAhead | kernel/Task.cpp:130-134 | a task further down the queue is delayed by no fork |
| Tasks.Scheduler.InitialiseTasking | kernel/Task.cpp:26-43 | a queue of one task, which is current |
| Tasks.Scheduler.LastTask | kernel/Task.cpp:68-72 | the walk ends at the last task of the queue |
| Tasks.Scheduler.ForkTask | kernel/Task.cpp:50-101 | appends one task with the next number, the registers and the cloned directory; the queue stays acyclic and everything else unchanged |
| Tasks.Scheduler.SwitchTask | kernel/Task.cpp:103-140 | saves into the current task only, makes the next one current, coming round at the end, and gives its registers and directory; nothing happens before initialisation |
| Printf.PlainRun | libc/stdio/stdio.cpp:27-42 | a run of text without percent signs means itself |
| Printf.PercentRun | libc/stdio/stdio.cpp:27-42 | a run that starts with a doubled percent sign means one of them and the rest of the run |
| Printf.ArgAt | libc/stdio/stdio.cpp:44-66 | a character or string directive means its argument |
| Printf.UnknownAt | libc/stdio/stdio.cpp:67-78 | from an unknown directive on, the format means itself |
| Printf.Printer.Print | libc/stdio/stdio.cpp:10-16 | prints all of the data in order |
| Printf.Printer.Printf | libc/stdio/stdio.cpp:18-83 | prints exactly the character-by-character meaning of the format and returns its length, or -1 exactly when that exceeds INT_MAX, having printed a beginning of it |
| Strings.Strcmp | libc/string/strcmp.cpp:3-19 | zero exactly for equal strings, negative exactly when the first comes before the second in byte order |
| Strings.BeforeExact | libc/string/strcmp.cpp:5-18 | one string comes before another exactly if, where they first differ, the other goes on or has the greater byte |
| Strings.Strcpy | libc/string/strcpy.cpp:3-27 | the destination holds the source's string, and nothing outside it and its terminator changes; a null destination changes nothing |
| RamDisk.ReadCountExact | kernel/FIleSystem/initrd.cpp:14-23 | a read stays inside the file exactly when the end test does not wrap below the file's length |
| RamDisk.ReadCountFails | kernel/FIleSystem/initrd.cpp:19-20 | a size that makes the end test wrap and is delivered whole |
| RamDisk.ReadsExact | kernel/FIleSystem/initrd.cpp:14-23 | consecutive reads of any sizes get as far as their sizes or the file go exactly when no end test wraps, each counted from where the one before has ended |
| RamDisk.ReadsReassemble | kernel/FIleSystem/initrd.cpp:14-23 | then they cut the file into adjoining pieces, from where they start up to its end |
| RamDisk.ReadAtEndExact | kernel/FIleSystem/initrd.cpp:14-23 | at the end of a file a read delivers nothing exactly when it asks for nothing or its end test does not wrap |
| RamDisk.Disk.Read | kernel/FIleSystem/initrd.cpp:14-23 | copies the file's bytes at the offset into the buffer, as many as fit, and nothing else changes |
| RamDisk.Disk.ReadAll | kernel/FIleSystem/initrd.cpp:14-23 | consecutive reads whose end tests do not wrap put exactly the file's bytes into one buffer, as far as the sizes reach or the file goes, and change nothing else |
| RamDisk.Disk.MakeNode | kernel/FIleSystem/initrd.cpp:95-114 | node i gets the name of file i and all its fields, its header's offset becomes an address, and no other node or header changes |
| RamDisk.Disk.NodeLayout | kernel/FIleSystem/initrd.cpp:101-113 | a file's node byte by byte: the name, the read function in its place, kind, number and length, and zero in every other field |
| RamDisk.Disk.HeaderLayout | kernel/FIleSystem/initrd.cpp:59-60 | where the headers of the files lie in the image |
| RamDisk.Disk.InitialiseNodes | kernel/FIleSystem/initrd.cpp:93-114 | every file of the image has its node with name, length, number, kind, read function and zeroes elsewhere, every offset is an address, and nothing but the nodes and the offsets changes |
| RamDisk.Disk.ReadDir | kernel/FIleSystem/initrd.cpp:25-41 | lists /dev first in the root directory, then the files by position; 0 behind the end |
| RamDisk.Disk.FindDir | kernel/FIleSystem/initrd.cpp:43-54 | /dev in the root directory, else the first file of that name, and 0 exactly when there is none |
| RamDisk.Disk.ListThenFind | kernel/FIleSystem/initrd.cpp:25-54 | the name listed at position i + 1, if unique and not /dev's, is found again at node i |

## Left out

- Heaps.Heap.Alloc: the capacity of the index is a precondition, as the list does not check it; the supervisor and read-only flags of the mapped pages are not modelled.
- Heaps.Heap.Expand: frames are a number and page contents an arbitrary function; that `get_page` may itself allocate from the heap while it grows is not modelled.
- Heaps.Heap.Free: a pointer that is not the payload of a live block is a precondition, as the assertions at `kernel/Heap.cpp:165-167` are commented out.
- FreeOutcomes.FreeExact: a write beyond the last address is dropped instead of wrapping to the first; which pages the cut unmaps is a theorem of its own (`UnmappedExact`).
- Growing.GrowExact: starts after the pages have been mapped; the length they are mapped to is the subject of `RoundingExact`.
- PageTables.Boot.KMalloc: the placement address does not wrap at 32 bits.
- PageTables.Boot.GetPage: only the bump allocator provides tables; the tables' own contents do not lie in the modelled memory.
- PageTables.Boot.MapIdentity: that there are enough frames is a precondition, because the kernel hangs otherwise; mapping the heap's first pages (`kernel/paging.cpp:173-174`) uses the same allocation and is left out.
- AddressSpaces.Machine.CloneDirectory: a page's contents are one value per frame, and the tables are objects apart from them, so the clearing at `kernel/paging.cpp:230` is modelled on the heap's memory instead (`Clearing`); running out of frames is a result.
- Tasks.Scheduler.ForkTask: returning twice is left out; the child's context is what the parent stores for it, and the clone is a parameter.
- Tasks.Scheduler.SwitchTask: one atomic step; control registers, the jump and interrupts are not modelled.
- Printf.Printer.Printf: arguments are a typed sequence instead of a variadic list, and putting a character never fails.
- RamDisk.Disk.InitialiseNodes: names must end within their 64 bytes, which the kernel does not check; the root and /dev nodes are left out.
- Strings.Strcpy: overlapping strings are excluded.
- Moving the stack (`kernel/Task.cpp:155-212`), reading the instruction pointer, and flushing the TLB: assembly.
- `kernel/PageFrameAllocator.cpp` repeats `kernel/paging.cpp:18-99` and is not linked.
- The virtual file system's dispatch, the terminal, keyboard, timer, interrupt tables and the boot code: forwarding or hardware set-up.
- Page table bits that the kernel never uses, and the translation itself: a read of a page is the contents of its frame.
