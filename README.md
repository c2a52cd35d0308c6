# Implicit-list allocator, comparators and matrix sum

This project models three pieces of the systems-programming lecture code in Dafny.

**The boundary-tag allocator** of `lectures/4-malloc/mymallocSpring24.c`:
- It manages one arena of `HEAP_SIZE` = 1024 bytes, obtained once from the host.
- The arena is tiled by blocks. Each block has a 16-byte header `Tag` (payload size and free flag), a payload, and a 16-byte footer `Tag` that mirrors the header.
- `mymalloc` is meant to round the request to 16 bytes, find a block first-fit, split it, mark it allocated and return the payload just past the header.
- `myfree` is meant to mark the block free and coalesce it with the free neighbours found through `prev_block` and `next_block`.
- The code as written falls short of both, and the model's `Malloc` and `Free` do what is intended. For example, the scan can never report a block, `prev_block` always returns NULL, the left footer is read at `b + 8`, and right coalescing is empty. "## Findings" lists each gap with an input that shows it.

**The element-wise comparators** `intcmp` and `stringcmp` of `lectures/2-cmemorymodel/lec3.c`.

**`matrix_sum`** of `lectures/5and6-threads/matrix_ops.c`.

## How the model is organised

The files build on each other:
- `layout.dfy` (module `Layout`) holds the constants and the `Tag` record. It also defines `align_size`, `next_block` and `prev_block` as functions over a read-only view of the arena, plus the header/footer write.
- `blocks.dfy` (module `Blocks`) describes the arena as a list of blocks `Blk(off, size, free)` in address order. It defines:
  - `WellFormed`: the blocks tile `[0, 1024)` and every payload is a multiple of 16.
  - `TagsAgree`: every block's header and footer hold its size and flag.
  - `NoAdjacentFree`: no two free blocks are neighbours.
  - `Live`: the payload offsets handed out.
  - The placement scans and the list-level effect of splitting (`Carve`, `Place`) and of freeing (`MergeNext`, `Coalesce`, `Release`).
  - The lemmas relating these definitions.
- `allocator.dfy` (module `Malloc`) is the allocator as a class:
  - The globals `heap_start`/`heap_end`/`last_block` and the static `first` flag become fields.
  - The arena is an `array<Tag>` indexed by byte offset: `arena[o]` is the tag whose first byte is at `o`.
  - Pointers are offsets from `heap_start`.
  - Each method writes tags in place and keeps a ghost block list `blocks` in step with them.
  - `Valid()` ties the array to the list.
- `findings.dfy` (module `AsWritten`) holds the source's text where it does not do what its comments and structure mean. Each such definition has a concrete input that shows the difference; see "## Findings". The rest of the project uses the intended definitions.
- `compare.dfy` (module `Compare`): `intcmp` and `stringcmp` have the same body, so both are one generic method.
- `matrix.dfy` (module `Matrix`): `matrix_sum` over `array2` of 32-bit ints.

## Model

| member | source | states |
|---|---|---|
| Layout.AlignSize | lectures/4-malloc/mymallocSpring24.c:85-90 | the rounded request is a multiple of 16, at least the request, and less than 16 bytes above it |
| Layout.NextBlock | lectures/4-malloc/mymallocSpring24.c:165-172 | next_block steps over header, payload and footer; it returns an offset inside the arena, past the block, and none exactly when the step reaches heap_end |
| Layout.PrevBlock | lectures/4-malloc/mymallocSpring24.c:174-179 | prev_block reads the footer just below the header; none exactly at heap_start, otherwise an offset at least 32 bytes below the header |
| Blocks.Initial | lectures/4-malloc/mymallocSpring24.c:114-125 | the first-call layout is one free block of payload 992 that tiles the arena, with nothing allocated |
| Blocks.TotalSizeIsHeapSize | lectures/4-malloc/mymallocSpring24.c:10 | the block spans of a tiling add up to exactly HEAP_SIZE bytes |
| Blocks.Ordered | lectures/4-malloc/mymallocSpring24.c:30 | in a tiling, a block ends at or before the start of every later block |
| Blocks.Bounds | lectures/4-malloc/mymallocSpring24.c:12-13 | every block lies inside [heap_start, heap_end) and starts on a 16-byte boundary |
| Blocks.PayloadsDisjoint | lectures/4-malloc/mymallocSpring24.c:22-26 | the payloads of two different blocks do not overlap |
| Blocks.PayloadInjective | lectures/4-malloc/mymallocSpring24.c:140 | a payload pointer names exactly one block, so myfree's `p - 16` finds the block p came from |
| Blocks.LiveAligned | lectures/4-malloc/mymallocSpring24.c:133 | every handed-out payload offset is 16-byte aligned and lies inside the arena |
| Blocks.OffsetAtStep | lectures/4-malloc/mymallocSpring24.c:166-167 | stepping over header, payload and footer from block k lands on block k + 1 |
| Blocks.OffsetBelow | lectures/4-malloc/mymallocSpring24.c:48 | the scan's test `b < stop` holds exactly when block k comes before block hi |
| Blocks.NextBlockFollows | lectures/4-malloc/mymallocSpring24.c:165-172 | next_block on a consistent arena yields the header of the next block, or none after the last block |
| Blocks.PrevBlockPrecedes | lectures/4-malloc/mymallocSpring24.c:174-179 | prev_block, reading the footer just before the header, yields the previous block, or none at heap_start |
| Blocks.WriteTagsSpan | lectures/4-malloc/mymallocSpring24.c:36-40 | writing a block's two tags installs that block's header and footer and changes nothing outside its span |
| Blocks.FirstFitIn | lectures/4-malloc/mymallocSpring24.c:45-56 | the scan of blocks [lo, hi) returns a fitting block (free, payload >= request) with no fitting block before it, or none when none of them fits |
| Blocks.FirstFitScan | lectures/4-malloc/mymallocSpring24.c:45-56 | FIRST_FIT over the whole list finds nothing exactly when no block fits; a found block fits and no block before it fits |
| Blocks.NextFitScan | lectures/4-malloc/mymallocSpring24.c:57-82 | NEXT_FIT returns a fitting block, or none only when no block fits |
| Blocks.Exhaustion | lectures/4-malloc/mymallocSpring24.c:127-136 | a request above HEAP_SIZE - 32 finds no block in any tiling, so mymalloc returns none |
| Blocks.FirstFitLowest | lectures/4-malloc/mymallocSpring24.c:45-56 | FIRST_FIT finds nothing exactly when no block fits; otherwise its block fits and has the lowest offset among fitting blocks |
| Blocks.NextFitOrder | lectures/4-malloc/mymallocSpring24.c:57-82 | NEXT_FIT fails exactly when FIRST_FIT does; its block fits and no block before it fits in wrap-around order from the cursor |
| Blocks.NextFitFromStart | lectures/4-malloc/mymallocSpring24.c:57-82 | NEXT_FIT with the cursor at heap_start is FIRST_FIT |
| Blocks.CarveWellFormed | lectures/4-malloc/mymallocSpring24.c:93-113 | splitting keeps the tiling: the left block ends where the right starts, the right ends where the old block ended, and their spans add up to the old span |
| Blocks.Carve | lectures/4-malloc/mymallocSpring24.c:93-113 | split_block gives one more block: block i keeps its start, is allocated and has payload = request; the free remainder starts where it ends and ends where the old block ended |
| Blocks.Place | lectures/4-malloc/mymallocSpring24.c:127-136 | the list grows by one block or keeps its length; block i keeps its start, is allocated, and holds the request when it fitted |
| Blocks.CarveAt | lectures/4-malloc/mymallocSpring24.c:93-113 | after splitting, the left block has payload = request and is allocated; the right block has payload old - request - 32 and is free; every other block is the same |
| Blocks.CarveKeepsLayout | lectures/4-malloc/mymallocSpring24.c:93-113 | splitting a free block keeps the tiling and no-adjacent-free, keeps the left block's start, and moves every other block only in index |
| Blocks.CarveNoAdjacentFree | lectures/4-malloc/mymallocSpring24.c:97-104 | the free remainder never sits beside another free block, because the left half is allocated |
| Blocks.SetFlagWellFormed | lectures/4-malloc/mymallocSpring24.c:132 | flipping a block's flag keeps the tiling |
| Blocks.PlaceKeepsLayout | lectures/4-malloc/mymallocSpring24.c:127-136 | placing a request keeps the tiling and no-adjacent-free; the block handed out starts at the found block, is allocated, and has payload >= request and < request + 32 |
| Blocks.PlaceLive | lectures/4-malloc/mymallocSpring24.c:127-136 | placing a request adds exactly the found block's payload to the live set, and that payload was not live before |
| Blocks.WriteCarved | lectures/4-malloc/mymallocSpring24.c:93-113 | split_block's tag writes make the arena agree with the split block list |
| Blocks.CarvedPair | lectures/4-malloc/mymallocSpring24.c:99-111 | the two tag pairs split_block writes give each half a header equal to its footer, and change nothing outside the old block |
| Blocks.MergeNextAt | lectures/4-malloc/mymallocSpring24.c:152-156 | a merged block keeps the left block's start, is free, and has payload left + right + 32; every other block is the same |
| Blocks.MergeNextWellFormed | lectures/4-malloc/mymallocSpring24.c:152-156 | merging a block with its right neighbour keeps the tiling; the merged block spans both, and every other block keeps its offset |
| Blocks.WriteFlag | lectures/4-malloc/mymallocSpring24.c:141-143 | rewriting a block's two tags with a new flag makes the arena agree with the list where only that flag changed |
| Blocks.WriteMerged | lectures/4-malloc/mymallocSpring24.c:153-156 | writing the merged block's two tags makes the arena agree with the merged list |
| Blocks.CoalesceOrderIndependent | lectures/4-malloc/mymallocSpring24.c:148-161 | merging left then right gives the same blocks as merging right then left |
| Blocks.DoubleMerge | lectures/4-malloc/mymallocSpring24.c:148-161 | with free blocks on both sides, the two merge orders give the same three-way merge |
| Blocks.MergedSpanAt | lectures/4-malloc/mymallocSpring24.c:152-156 | replacing blocks [a, z) by one free block spanning them keeps the blocks before and after |
| Blocks.MarkFreeIsMergedSpan | lectures/4-malloc/mymallocSpring24.c:141-143 | marking one block free is the one-block merge of that block |
| Blocks.MergeExtendsRight | lectures/4-malloc/mymallocSpring24.c:158-161 | merging a merged run with its right neighbour extends the run by one block |
| Blocks.MergeExtendsLeft | lectures/4-malloc/mymallocSpring24.c:150-157 | merging a merged run into its left neighbour extends the run by one block |
| Blocks.MergeLeftIsMergedSpan | lectures/4-malloc/mymallocSpring24.c:150-157 | freeing block i next to a free left neighbour and merging gives one free block spanning both |
| Blocks.ReleaseShape | lectures/4-malloc/mymallocSpring24.c:139-161 | myfree replaces block i, together with its free neighbours on each side, by one free block spanning them |
| Blocks.Release | lectures/4-malloc/mymallocSpring24.c:139-161 | myfree shrinks the list by at most two blocks and leaves a free block at the start of the merged extent, at its old offset |
| Blocks.MergedSpanThenRight | lectures/4-malloc/mymallocSpring24.c:158-161 | merging blocks [a, m) and then the next z - m blocks after the merged one gives the merge of [a, z) |
| Blocks.MergedSpanThenLeft | lectures/4-malloc/mymallocSpring24.c:150-157 | merging blocks [m, z) and then [a, m) with the merged block gives the merge of [a, z) |
| Blocks.ReleaseAfterRun | lectures/4-malloc/mymallocSpring24.c:139-161 | freeing the block just after a merged run extends the run over that block and its free right neighbour |
| Blocks.FreeLeftThenRight | lectures/4-malloc/mymallocSpring24.c:139-161 | freeing block i and then block i + 1, found one place after the merged block, merges everything from i's free left neighbour to i + 1's free right neighbour |
| Blocks.FreeRightThenLeft | lectures/4-malloc/mymallocSpring24.c:139-161 | freeing block i + 1 and then block i gives that same merged extent |
| Blocks.FreesCommute | lectures/4-malloc/mymallocSpring24.c:139-161 | freeing two allocated neighbours in either order, with block indices shifted by the first merge, gives the same list |
| Blocks.ReleaseIntoLeft | lectures/4-malloc/mymallocSpring24.c:150-161 | with a free left neighbour, the freed run starts at that neighbour |
| Blocks.ReleaseInPlace | lectures/4-malloc/mymallocSpring24.c:139-161 | without a free left neighbour, the freed run starts at the freed block |
| Blocks.MergedSpanWellFormed | lectures/4-malloc/mymallocSpring24.c:152-156 | a merged run keeps the tiling |
| Blocks.MergedSpanNoAdjacentFree | lectures/4-malloc/mymallocSpring24.c:148-161 | a merged run bounded by allocated blocks, or by the arena's ends, keeps no-adjacent-free |
| Blocks.MergedSpanLive | lectures/4-malloc/mymallocSpring24.c:139-161 | merging a run whose only allocated block is i removes exactly i's payload from the live set |
| Blocks.ReleaseKeepsLayout | lectures/4-malloc/mymallocSpring24.c:139-161 | after myfree the blocks still tile the arena and no two free blocks are neighbours |
| Blocks.ReleaseLive | lectures/4-malloc/mymallocSpring24.c:139-161 | myfree removes exactly the freed payload from the live set |
| Blocks.SpliceWellFormed | lectures/4-malloc/mymallocSpring24.c:30 | replacing a run of blocks by blocks that tile the same span keeps the tiling |
| Blocks.SpliceTags | lectures/4-malloc/mymallocSpring24.c:30 | tag writes confined to a replaced span keep every other block's tags |
| Malloc.CarveStep | lectures/4-malloc/mymallocSpring24.c:93-113 | split_block's writes take a consistent arena to one described by the split list, with last_block still on its block and nothing outside the old block changed |
| Malloc.FlagStep | lectures/4-malloc/mymallocSpring24.c:141-143 | rewriting one block's flag in both tags keeps the arena consistent |
| Malloc.MergeStep | lectures/4-malloc/mymallocSpring24.c:152-156 | a merge keeps the arena consistent, and last_block is moved onto the merged block if it pointed at the absorbed one |
| Malloc.InitialStep | lectures/4-malloc/mymallocSpring24.c:122-124 | create_block over the whole arena gives a consistent arena of the initial single free block |
| Malloc.PlaceFacts | lectures/4-malloc/mymallocSpring24.c:127-136 | placement keeps no-adjacent-free, hands out an aligned payload that was not live, adds exactly it to the live set, and leaves it allocated with payload >= request |
| Malloc.ReleaseFacts | lectures/4-malloc/mymallocSpring24.c:139-161 | release keeps no-adjacent-free and removes exactly p from the live set; p names one block only |
| Malloc.CursorByOffset | lectures/4-malloc/mymallocSpring24.c:148-161 | in a tiling the cursor's block is told by its offset: CursorAfter moves a cursor on the freed block or on a merged right neighbour to the start of the merged extent, and leaves any other cursor alone |
| Malloc.WithoutLeftMerge | lectures/4-malloc/mymallocSpring24.c:158-161 | without a free left neighbour, Coalesce and CursorAfter come down to the right step on the freed block |
| Malloc.AfterLeftMerge | lectures/4-malloc/mymallocSpring24.c:150-161 | after the merge into a free left neighbour, Coalesce and CursorAfter come down to the right step on the merged block |
| Malloc.MarkFreeCursor | lectures/4-malloc/mymallocSpring24.c:141-143 | marking the block free changes neither its neighbours nor where CursorAfter puts the cursor |
| Malloc.Allocator.constructor | lectures/4-malloc/mymallocSpring24.c:12-14 | a new allocator is valid, not yet initialised, and has nothing allocated |
| Malloc.Allocator.SetTags | lectures/4-malloc/mymallocSpring24.c:36-40 | the same tag is written as header at off and as footer past the payload |
| Malloc.Allocator.CreateBlock | lectures/4-malloc/mymallocSpring24.c:31-42 | a span of at least 32 bytes becomes one free block of payload size - 32 at start; a smaller span yields none and writes nothing |
| Malloc.Allocator.Scan | lectures/4-malloc/mymallocSpring24.c:47-52 | the tag walk from block lo below block hi returns the offset of the first fitting block of FirstFitIn, or none |
| Malloc.Allocator.FindFreeBlock | lectures/4-malloc/mymallocSpring24.c:45-83 | FIRST_FIT and NEXT_FIT return the offset Choose picks; a success moves last_block to it; BEST_FIT and WORST_FIT find nothing; the blocks are unchanged |
| Malloc.Allocator.SplitBlock | lectures/4-malloc/mymallocSpring24.c:93-113 | the arena now holds the split block list, with the left block at b, and nothing outside the old block changed |
| Malloc.Allocator.MarkBlock | lectures/4-malloc/mymallocSpring24.c:132 | both tags of block i now carry the new flag; the list changes in that flag only |
| Malloc.Allocator.MergeNextBlock | lectures/4-malloc/mymallocSpring24.c:152-156 | block j absorbs block j + 1, the arena stays consistent, and last_block moves to block j exactly when it was on the absorbed block |
| Malloc.Allocator.InitArena | lectures/4-malloc/mymallocSpring24.c:116-125 | the first call leaves a valid, initialised arena of one free block |
| Malloc.Allocator.Malloc | lectures/4-malloc/mymallocSpring24.c:114-137 | initialisation happens once, on the first call the host supplies the arena; the result is the first-fit block's payload with the list placed, or none with nothing changed; a payload is aligned, was not live, is now live, and lies in an allocated block of payload >= size; last_block is the handed-out block after a success and is otherwise unchanged, except that a fresh arena puts it at heap_start |
| Malloc.Allocator.PlaceBlock | lectures/4-malloc/mymallocSpring24.c:130-134 | the found block is split or handed out whole, as Place says; its payload is aligned, newly live, and allocated with room for the request |
| Malloc.Allocator.CoalesceBlock | lectures/4-malloc/mymallocSpring24.c:148-161 | the freed block is merged with a free left and then a free right neighbour, as Coalesce says; last_block moves to the merged block exactly when it was on a block of the merged extent, as CursorAfter says |
| Malloc.Allocator.MergeLeft | lectures/4-malloc/mymallocSpring24.c:149-157 | when the block before is free, it absorbs block i, coalescing carries on from it, and a last_block on block i follows it; otherwise nothing changes; what remains of Coalesce and CursorAfter is the right step from the returned block |
| Malloc.Allocator.MergeRight | lectures/4-malloc/mymallocSpring24.c:158-161 | when the block after is free, block j absorbs it and a last_block on it moves to block j; otherwise nothing changes |
| Malloc.Allocator.FreeLeftNeighbour | lectures/4-malloc/mymallocSpring24.c:150-151 | the footer test finds the previous block exactly when there is one and it is free, and returns its offset |
| Malloc.Allocator.FreeBlock | lectures/4-malloc/mymallocSpring24.c:139-161 | myfree on block i: the list becomes Release of block i and last_block ends where CursorAfter says |
| Malloc.Allocator.Free | lectures/4-malloc/mymallocSpring24.c:139-162 | the allocator stays valid, the blocks become Release of the freed block, exactly p leaves the live set, and last_block ends where CursorAfter says |
| Malloc.ScenarioLists | lectures/4-malloc/mymallocSpring24.c:180-184 | the block lists of main's two mymalloc(14) calls and a later free and re-allocation |
| Malloc.MainScenario | lectures/4-malloc/mymallocSpring24.c:180-184 | two mymalloc(14) calls on a fresh arena return 16 and 64, so the 14 bytes of the first (a[1] included) lie below the second; after freeing the first, mymalloc(14) returns it again |
| AsWritten.WalkAsWritten | lectures/4-malloc/mymallocSpring24.c:47-52 | the walk as written never moves below its start |
| AsWritten.AlignSizeCounterexample | lectures/4-malloc/mymallocSpring24.c:86-90 | align_size as written maps 14 to 42, not a multiple of 16 |
| AsWritten.ScanConditionCounterexample | lectures/4-malloc/mymallocSpring24.c:48-49 | the scan condition as written stops at an allocated block |
| AsWritten.ScanStepCounterexample | lectures/4-malloc/mymallocSpring24.c:50-51 | the constant step lands inside the first block's payload |
| AsWritten.FindFreeBlockCounterexample | lectures/4-malloc/mymallocSpring24.c:53-56 | FIRST_FIT as written finds nothing on any arena, for any request |
| AsWritten.ExactFitCounterexample | lectures/4-malloc/mymallocSpring24.c:130 | an exact fit is refused as written |
| AsWritten.RemainderCounterexample | lectures/4-malloc/mymallocSpring24.c:99-100 | the remainder size as written wraps around for `split_block` on the fresh 992-byte block with data_size 976, which `mymalloc(976)` reaches once :88 and :53 are corrected |
| AsWritten.RightCounterexample | lectures/4-malloc/mymallocSpring24.c:97 | the right block as written lies outside the arena |
| AsWritten.FooterCounterexample | lectures/4-malloc/mymallocSpring24.c:102 | the footer as written overlaps the payload |
| AsWritten.LeftTagsCounterexample | lectures/4-malloc/mymallocSpring24.c:107-111 | the handed-out block's header and footer disagree as written |
| AsWritten.LeftFooterCounterexample | lectures/4-malloc/mymallocSpring24.c:150 | the left footer as written is read inside the freed block's own header |
| AsWritten.CoalesceCounterexample | lectures/4-malloc/mymallocSpring24.c:158-161 | without right coalescing, two free neighbours remain |
| Compare.Cmp | lectures/2-cmemorymodel/lec3.c:4-19 | returns 0 exactly when every position below n agrees, and -1 exactly when there is a first position below n, inside both arrays, where they differ after agreeing on all earlier ones; the arrays need hold only the positions the loop reaches before a difference, as nothing past it is read; ints and chars alike (a '\0' is an ordinary element); n <= 0 and comparing an array with itself give 0; nothing is written |
| Compare.CmpExamples | lectures/2-cmemorymodel/lec3.c:21-31 | {1,2,3} against {1,2,4} agree on two elements and differ on three; a char array with a '\0' inside agrees with itself; a count of 100 against a one-element array that differs at once gives -1 |
| Matrix.MatrixSum | lectures/5and6-threads/matrix_ops.c:19-25 | every cell of the n-by-n square of C holds the sum of the original A and B cells, even when C is A or B; no other cell of C changes, so n <= 0 changes nothing; A and B are written only through C |
| Matrix.SumSymmetric | lectures/5and6-threads/matrix_ops.c:22 | summing A + B and B + A into two fresh targets gives the same square |

## Left out

- The host calls `sbrk` and `perror` are not modelled. `Malloc`'s `hostGrants` parameter says whether the host supplied the arena. A refusal returns none and leaves the allocator uninitialised, so the next call asks again. This follows the code, which leaves `first` set.
- Payload bytes are not modelled: the arena is seen tag by tag, and the padding word of `Tag` is dropped. So the property that bytes written into an allocation read back unchanged is not stated. Only the payload's offset and size are.
- Tag sizes are mathematical integers. `Malloc` takes a request below 2^64, as a `size_t` is, but `Layout.AlignSize` rounds it without wrap-around. So the wrap of `align_size` near the top of `size_t` is not modelled: the source's `int n16` truncation and its `size * n16` overflow, and the intended rounding's wrap to 0 for a request within 15 of `SIZE_MAX`. The model's rounded request exceeds every payload there instead. The remainder underflow of `split_block` is modelled in `findings.dfy`.
- `BEST_FIT` and `WORST_FIT` have no branch in the source. `FindFreeBlock` returns none for them, as the source falls through to NULL.
- The source does not detect an invalid pointer or a double free. `Free` requires that `p` is a live allocation.
- `Malloc.Allocator.MergeNextBlock`: when `last_block` pointed at the absorbed block, it is moved to the merged block. The source never updates `last_block` in `myfree` and leaves it pointing into the merged payload. `MergeLeft`, `MergeRight`, `CoalesceBlock`, `FreeBlock` and `Free` state the moved cursor.
- `last_block` starts at `heap_start` once the arena exists; the source leaves it NULL until a search succeeds. `Malloc` always uses FIRST_FIT, as the source does; NEXT_FIT is reachable only through `FindFreeBlock`.
- `mymalloc(0)` is accepted: the rounded request is 0, and a block is found and placed like any other. The code has no zero-size or over-capacity check. With the rounding computed without wrap-around, a request too large for any block returns none through the scan (`Blocks.Exhaustion`).
- `Compare.Cmp`: `intcmp` and `stringcmp` are one generic method over arrays. The function-pointer cast and `printf` of `main1` are not modelled, and neither are `main` and `main2` of `lec3.c`.
- `Matrix.MatrixSum`: C's `int**` rows could alias one another. The model uses `array2`, where rows are distinct, and requires every sum to fit a 32-bit int, since signed overflow is undefined in C. `allocate_matrix`, `generate_elements`, `printmatrix` and `main` of `matrix_ops.c` are not modelled, nor is the copy of `matrix_sum` in the threaded program.
- The concurrency, process, I/O, signal, socket and file-system programs elsewhere in the lectures are not part of this model.

## Findings

| source | as written | input that shows it | evidently intended | confidence | as-written member | corrected member |
|---|---|---|---|---|---|---|
| lectures/4-malloc/mymallocSpring24.c:86-90 | `align_size` returns `size * n16` | `size = 14` gives 42 | round up to a multiple of 16 (14 gives 16) | high, not executed | AsWritten.AlignSizeCounterexample | Layout.AlignSize |
| lectures/4-malloc/mymallocSpring24.c:48-49 | the scan continues only past blocks that are allocated and too small | an allocated 16-byte block stops a search for 16 bytes | pass every block that is not free with enough room | high, not executed | AsWritten.ScanConditionCounterexample | Blocks.FirstFitLowest |
| lectures/4-malloc/mymallocSpring24.c:50-51 | the scan steps a constant 16 + 8 + 16 bytes | the fresh arena, once the condition at :48-49 is corrected to pass a block that does not fit: the step lands at 40, inside the block's payload (as written the walk never steps, see `AsWritten.WalkAsWritten`) | step 16 + payload + 16, as `next_block` does | high, not executed | AsWritten.ScanStepCounterexample | Malloc.Allocator.Scan |
| lectures/4-malloc/mymallocSpring24.c:53-56 | success needs `b < heap_start` | any arena and request: nothing is ever found | success when `b < heap_end` | high, not executed | AsWritten.FindFreeBlockCounterexample | Malloc.Allocator.FindFreeBlock |
| lectures/4-malloc/mymallocSpring24.c:97 | the right block is found by `Block*` arithmetic, which scales by 16 | a 64-byte split of the fresh block puts the remainder at 1536 | remainder at `left + 32 + request` (96) | high, not executed | AsWritten.RightCounterexample | Blocks.CarveWellFormed |
| lectures/4-malloc/mymallocSpring24.c:99-100 | the remainder's size is a `size_t` subtraction with no guard | `split_block` on the fresh 992-byte block with data_size 976 (which `mymalloc(976)` reaches once :88 and :53 are corrected): the remainder wraps to 2^64 - 16 | split only when the remainder holds 32 bytes of tags, else hand out the whole block | high, not executed | AsWritten.RemainderCounterexample | Blocks.PlaceKeepsLayout |
| lectures/4-malloc/mymallocSpring24.c:102 | footers are written at `start + size`, without the header | a 16-byte block at 0: footer at 16, the caller's first payload byte | footer at `start + 16 + size` | high, not executed | AsWritten.FooterCounterexample | Blocks.WriteTagsSpan |
| lectures/4-malloc/mymallocSpring24.c:107-111 | the left half is written free and only its header is then flipped | a 16-byte split: header allocated, footer free | both tags of the handed-out block say allocated | high, not executed | AsWritten.LeftTagsCounterexample | Blocks.WriteCarved |
| lectures/4-malloc/mymallocSpring24.c:130 | a block is used only when its payload is strictly larger than the request | the test at :130 on the fresh 992-byte block with a rounded request of 992 fails, so `mymalloc(992)` is refused there once :88 and :53 are corrected | an exact fit is accepted | medium, not executed | AsWritten.ExactFitCounterexample | Malloc.Allocator.PlaceBlock |
| lectures/4-malloc/mymallocSpring24.c:150 | the left neighbour's footer is read at `b + sizeof(Tag *)` | freeing the block at 48: the read lands at 56, inside its own header | read the footer at `b - 16` and step back over its payload and header | high, not executed | AsWritten.LeftFooterCounterexample | Blocks.PrevBlockPrecedes |
| lectures/4-malloc/mymallocSpring24.c:158-161 | right coalescing is empty and `prev_block` always returns NULL | freeing block 0 of [16 allocated, 944 free] leaves two free neighbours | merge with a free right neighbour too | high, not executed | AsWritten.CoalesceCounterexample | Blocks.ReleaseKeepsLayout |
