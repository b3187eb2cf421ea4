# A verified model of a first/best/worst/next-fit `malloc`

This project models the heap allocator of `src/malloc.c`: a replacement `malloc` and `free`
that keep every block of memory they obtained from the system on one singly linked list of
descriptor records (`struct _block`). Each record sits just before the payload it describes.
`malloc` rounds the request up to a multiple of 4 (`ALIGN4`) and searches the list with the
placement strategy the build selects: first fit, best fit, worst fit or next fit. If the
search fails, it grows the heap by moving the program break, marks the block in use and
returns the payload address. `free` marks the block free and then makes one coalescing sweep
over the list, merging neighbours that are both free.

The model is an arena:

- `Layout` holds the size and address arithmetic: `ALIGN4` with its size_t wrap-around,
  `BLOCK_DATA` and `BLOCK_HEADER`, and the header size `H` = 32 (`sizeof(struct _block)` on
  an LP64 target).
- `Blocks` holds the records (`Block`: address, payload size, free flag, link) and the links
  between them. A `Ref` is an index into the record table or `Null`. It also defines the
  memory view of a list: the `Span`s of its blocks and the tiling they form.
- `Placement` gives the result of `findFreeBlock` under each strategy as a pure choice
  function (`FirstFitChoice`, `BestFitChoice`, `WorstFitChoice`, `NextFitChoice`, `Choose`).
  Its lemmas state what each strategy promises.
- `Coalesce` defines the sweep `free` makes, as a function `Sweep` on the memory view. It
  proves what the sweep merges and what it keeps. `SweepList` is the sweep's loop on the
  record table.
- `Allocator.Heap` is a class holding the allocator's global state:
  - the record table `blocks`;
  - `freeList`, the list head;
  - `temp`, the next-fit cursor;
  - `brk`, the program break;
  - `header`, which record's header sits at each address (the memory `BLOCK_HEADER` reads);
  - a ghost `order`, the records the list holds, head first.

  Its methods `FindFreeBlock` (with one search method per strategy), `GrowHeap`, `Malloc` and
  `Free` walk and update that state as the C functions do. Each one is proved against the
  choice functions and the sweep.
- `Scenarios` runs a short sequence of calls on a fresh allocator.

Records that coalescing absorbs stay in the table with their old link. They are only cut out
of the list, so the next-fit cursor can still name one, as it can in the C code.

Three behaviours of the code shape the model:

- The coalescing sweep moves on after each merge (src/malloc.c:370). A run of free
  neighbours is therefore merged pairwise, not into one block: three free neighbours end
  as two (`Coalesce.ThreeFreeLeaveTwo`).
- Nothing splits a reused block: the split in `malloc` is a commented-out stub
  (src/malloc.c:297-306), so a reused block keeps its whole size.
- Best and worst fit make a second pass that returns the first listed block with the chosen
  size. That pass does not test the free flag, so it can return a block that is in use
  (`Placement.BestFitMayChooseBlockInUse`).

## Model

| member | source | states |
|---|---|---|
| Layout.Align4 | src/malloc.c:9 | The aligned size is a multiple of 4. It is 0 exactly when the request is 0 or within 3 bytes of 2^64, where the size_t arithmetic wraps. Otherwise it lies in [s, s+4). |
| Layout.Align4IsLeast | src/malloc.c:9 | Without wrap-around, ALIGN4(s) is no greater than any multiple of 4 that is at least s. |
| Layout.BlockData | src/malloc.c:10-11 | BLOCK_HEADER of BLOCK_DATA(b) is b: the payload starts H bytes after the header. |
| Layout.HeaderThenData | src/malloc.c:10-11 | BLOCK_DATA of BLOCK_HEADER(p) is p. |
| Blocks.ListedIncreasing | src/malloc.c:247-256 | Growth links the tail only to a record created after it, so list positions name strictly increasing records. No record is listed twice. |
| Blocks.ListedIsChain | src/malloc.c:75-82 | The ghost list order is exactly the records a walk along `next` from the head meets before NULL. |
| Blocks.ChainIsListed | src/malloc.c:171-181 | The records met by walking from any record, including one coalescing unlinked, form a well-formed list ending in NULL. |
| Blocks.Appended | src/malloc.c:247-256 | Growth adds exactly one record, the new block, at the end of the table. The tail, if any, now links to it and keeps its address, size and flag. |
| Blocks.AppendedKeepsOthers | src/malloc.c:247-256 | Growth changes no existing record other than the tail. |
| Blocks.Marked | src/malloc.c:322 | Setting a block's free flag, as malloc does here and free() does at line 354, gives it the new flag and leaves its address, size and link as they were. |
| Blocks.MarkedKeepsOthers | src/malloc.c:354 | Setting one block's free flag changes no other record. |
| Blocks.Absorbed | src/malloc.c:365-366 | A record absorbing another keeps its address and flag and takes over the absorbed record's link. Its header plus payload grows by the absorbed header plus payload. |
| Blocks.AbsorbedKeepsOthers | src/malloc.c:365-366 | Absorbing changes no record other than the one that grows; the absorbed record itself keeps its size and link. |
| Blocks.AppendedListed | src/malloc.c:241-256 | Linking a new record after the tail extends the list by that record alone, and makes it the head when the list was empty. Links still only go forward. |
| Blocks.MarkedListed | src/malloc.c:321-322 | Setting a free flag changes no link and no list. |
| Blocks.AbsorbedListed | src/malloc.c:364-366 | When a listed record absorbs its successor and takes over its link, exactly the successor drops out of the list. Links still only go forward. |
| Blocks.TilesBytes | src/malloc.c:226-227 | When the listed blocks tile [lo, hi), their headers and payloads total hi - lo bytes. |
| Blocks.TilesAppend | src/malloc.c:226-227 | A block placed at the old break extends the tiling up to the new break. |
| Blocks.TilesIgnoresFlags | src/malloc.c:321-322 | Marking blocks free or in use keeps the tiling. |
| Blocks.TilesContiguous | src/malloc.c:364 | In a tiling each block ends exactly where the next one's header begins. |
| Placement.FirstWhereFinds | src/malloc.c:77-81 | A scan stops at the first record the test accepts; every record before it is rejected. |
| Placement.FirstWhereIs | src/malloc.c:77-81 | A scan that passed only rejected records and stopped at an accepted record (or at the end) stopped at the first accepted position. |
| Placement.FirstFitChoice | src/malloc.c:75-82 | First fit's choice is a record that is free and at least as large as the request. On a miss `*last` is the tail of the list. |
| Placement.BestFitChoice | src/malloc.c:91-127 | Best fit's choice is a record at least as large as the request. On a miss `*last` is the tail. |
| Placement.WorstFitChoice | src/malloc.c:135-163 | Worst fit's choice is a record strictly larger than the request, and `*last` is always the tail. |
| Placement.NextFitChoice | src/malloc.c:171-197 | Next fit's choice is a record that is free and at least as large as the request. |
| Placement.BestSurplus | src/malloc.c:91-116 | Best fit's `dif` after its first pass over a prefix of the list lies in (0, 1000000]. |
| Placement.BestSurplusIsLeast | src/malloc.c:91-116 | That `dif` is no greater than the surplus of any passed free block larger than the request. |
| Placement.BestSurplusAttained | src/malloc.c:91-116 | When `dif` is below 1000000, some passed free block larger than the request has exactly that surplus. |
| Placement.WorstSurplus | src/malloc.c:135-152 | Worst fit's `dif` after its first pass is never negative. |
| Placement.WorstSurplusIsGreatest | src/malloc.c:135-152 | That `dif` is at least the surplus of every passed free block larger than the request. |
| Placement.WorstSurplusAttained | src/malloc.c:135-152 | When `dif` is positive, some passed free block larger than the request has exactly that surplus. |
| Placement.Choose | src/malloc.c:73-209 | Under every strategy a returned block is a record at least as large as the request. On a miss `*last` is the tail of the list. `*last` always names a record or NULL. |
| Placement.FirstFitChoosesFirst | src/malloc.c:75-82 | First fit returns NULL exactly when no listed block is free and large enough. Otherwise it returns the first such block, with `*last` the block before it (its start value for the head). On a miss `*last` is the tail. |
| Placement.BestFitChoosesLeastSurplus | src/malloc.c:91-127 | The first free block of exactly the requested size is returned. Without one, `*last` is the tail, and the result is NULL exactly when every free larger block exceeds the request by 1000000 or more. Otherwise the result has the least surplus among free larger blocks and is the first listed block of that size. |
| Placement.WorstFitChoosesGreatestSurplus | src/malloc.c:135-163 | `*last` is the tail. The result is NULL exactly when no free block is strictly larger than the request, so an exact fit is never returned. Otherwise it has the greatest surplus among free larger blocks and is the first listed block of that size. |
| Placement.NextFitChoosesFromCursor | src/malloc.c:171-197 | Next fit returns a free block large enough, or NULL exactly when no block on the cursor's chain or the list fits. If one on the chain fits, the result is first fit over that chain. On a miss `*last` is the tail. |
| Placement.NextFitFallsBackToHead | src/malloc.c:183-196 | When no block on the cursor's chain fits, next fit's result is first fit over the whole list, starting with `*last` as the cursor's loop left it: the chain's last record. |
| Placement.BestFitMayChooseBlockInUse | src/malloc.c:119-127 | A concrete list on which best fit's rescan returns a block that is in use. |
| Coalesce.Sweep | src/malloc.c:357-371 | The sweep never lengthens the list and keeps its first block, the head, at the same address. |
| Coalesce.Merge | src/malloc.c:365 | The merged block starts at the first block's address with its free flag. Its header plus payload is the two blocks' headers plus payloads together. |
| Coalesce.MergeStep | src/malloc.c:362-370 | A merge at position k, followed by a step past the survivor, matches the sweep's definition at k. |
| Coalesce.SkipStep | src/malloc.c:360-370 | A step past a block that does not merge matches the sweep's definition at k. |
| Coalesce.AbsorbedShape | src/malloc.c:364-366 | After a merge at k, the memory view has the merged block at k. The blocks before k are unchanged and the blocks after the absorbed one move down by one. |
| Coalesce.AbsorbedView | src/malloc.c:362-366 | The record update free() makes when both neighbours are free is one merge step of the sweep on the memory view. |
| Coalesce.AbsorbedStep | src/malloc.c:362-368 | One merge keeps the list well formed and changes only sizes and links of listed records. Records the list does not hold, including the absorbed one and those still ahead of the loop, are as they were. It advances the sweep by one step. |
| Coalesce.AbsorbedUntouched | src/malloc.c:365-366 | After a merge every record the list no longer holds, the absorbed one included, is exactly as free() found it, and every listed record after the survivor is untouched. |
| Coalesce.SweepList | src/malloc.c:357-371 | free()'s loop leaves a well-formed list whose memory view is the sweep of the view it started from. Addresses and free flags are unchanged. Every record the final list does not hold, including each absorbed one with its old size and link, is exactly as before. |
| Coalesce.SweepTiles | src/malloc.c:364-366 | The sweep keeps the tiling of memory from base to the break. |
| Coalesce.SweepBytes | src/malloc.c:364 | The sweep conserves bytes: the survivor gains the absorbed block's payload plus its header. |
| Coalesce.SweepMergesOnlyFreePairs | src/malloc.c:362-367 | Every block after the sweep is a block before it, or the merge of a free block with the free block that followed it. |
| Coalesce.SweepShrinksIffFreePair | src/malloc.c:357-371 | The sweep shortens the list exactly when two list neighbours are both free. Without such a pair it changes nothing. |
| Coalesce.ThreeFreeLeaveTwo | src/malloc.c:357-371 | Three free neighbours end as one merged block followed by a free block. The sweep is not a full coalescing. |
| Allocator.AppendedIndexed | src/malloc.c:226-256 | A record placed at the break gets a fresh header address, and all headers stay below the new break. |
| Allocator.SameAddressesIndexed | src/malloc.c:352-366 | Changing only sizes, flags and links keeps every header where BLOCK_HEADER finds it. |
| Allocator.AppendedView | src/malloc.c:241-256 | Growth adds the new block's span at the end of the memory view. |
| Allocator.MarkedWf | src/malloc.c:321-324 | Marking a block and moving the next-fit cursor to a record keeps the allocator's state well formed. |
| Allocator.AppendedWf | src/malloc.c:223-258 | Growth keeps the state well formed, with the break moved by H plus the size and the view extended by the new block. |
| Allocator.Heap.constructor | src/malloc.c:59-60 | The allocator starts with an empty list, NULL head and cursor, and the break at base. |
| Allocator.Heap.Accounting | src/malloc.c:226-227 | In every well-formed state the listed blocks use exactly the bytes from base to the break. The first starts at base and each ends where the next header begins. |
| Allocator.Heap.FirstFitSearch | src/malloc.c:73-82 | The first-fit loop returns exactly first fit's choice and final `*last`. |
| Allocator.Heap.BestFitSearch | src/malloc.c:73-127 | The best-fit loops return exactly best fit's choice and final `*last`. |
| Allocator.Heap.WorstFitSearch | src/malloc.c:135-163 | The worst-fit loops return exactly worst fit's choice and final `*last`. |
| Allocator.Heap.Rescan | src/malloc.c:120-126 | The rescan from the head stops at the first listed block of the target size, which exists, and never runs off the list. |
| Allocator.Heap.FitScan | src/malloc.c:171-181 | One next-fit loop returns first fit over the chain it walks, with the matching `*last`. |
| Allocator.Heap.NextFitSearch | src/malloc.c:171-197 | The next-fit loops return exactly next fit's choice and final `*last`. |
| Allocator.Heap.FindFreeBlock | src/malloc.c:73-209 | findFreeBlock returns the configured strategy's choice. |
| Allocator.Heap.GrowHeap | src/malloc.c:223-258 | On failure nothing changes and NULL is returned. On success one record, in use with the requested size and a NULL link, is appended at the old break after the tail. The head is set only if the list was empty, the break moves by H plus the size, and the state stays well formed. |
| Allocator.Heap.Malloc | src/malloc.c:272-328 | A request that aligns to 0, or a miss without growth, returns NULL and changes nothing. A hit marks the chosen block in use and nothing else. A miss grows the heap by exactly the aligned size. The cursor becomes `*last`, and the returned pointer's header names an in-use block of at least ALIGN4(n) >= n bytes. |
| Allocator.Heap.Free | src/malloc.c:340-373 | NULL is ignored and a block already free is reported as a double free; neither changes anything. Otherwise the block is marked free and the list's memory view becomes the sweep of the marked view. Records cut out of the list keep their size and stale link. No other free flag, address, head, cursor or break changes, and the state stays well formed. |
| Scenarios.ChoiceAfterFree | src/malloc.c:73-209 | With one free 12-byte block listed, a 12-byte request finds it under every strategy except worst fit. |
| Scenarios.ReuseAfterFree | src/malloc.c:272-373 | On a fresh allocator, malloc(10), free, malloc(10) returns the same pointer twice under first, best and next fit. Worst fit grows the heap the second time. |

## Left out

- Allocator.Heap.GrowHeap: the system call `sbrk` and real memory are not modelled. The break is an integer, and whether the system grants the memory is the input `ok` (`grows` in `Malloc`). A refused request returns NULL, as the comment at src/malloc.c:235 intends. As written, a failing `sbrk(size)` would first trip the assertion at src/malloc.c:229.
- Memory contents are not modelled: no payload bytes, and no overwriting of an absorbed header, which becomes payload of the block that absorbed it.
- The statistics counters (`num_mallocs`, `num_frees`, `num_reuses`, `num_grows`, `num_splits`, `num_coalesces`, `num_blocks`, `num_requested`, `max_heap`), `printStatistics`, `atexit` and `printf` are left out. They are only observability and output.
- Splitting of oversized blocks is left out: the source has only a commented-out stub (src/malloc.c:297-306).
- The `prev` field and the padding of `struct _block` are left out; `prev` is never written. Their bytes count only through `H`.
- Thread safety and concurrent calls are left out: the source has no synchronisation.
- Exactly one placement strategy is modelled per allocator, as a constructor parameter. Builds with several strategy macros defined, or with none, are left out. With none defined, `findFreeBlock` returns the head.
- Allocator.Heap.WorstFitSearch: does not model the truncation of `int dif` when a surplus exceeds the range of `int`. Sizes and surpluses are unbounded integers.
- Allocator.Heap.Rescan: compares a block's size with the request plus `dif`, where the source compares the size_t difference `curr->size - size` with `dif`. The two agree unless sizes come within 1000000 of 2^64.
- Allocator.Heap.NextFitSearch: does not promise that it returns a listed block. Its cursor is not cleared when coalescing unlinks the record it names, so the returned block may be one that is no longer listed.
- Allocator.Heap.Malloc: only the request is a size_t, with ALIGN4's wrap-around. Block sizes, addresses and the break are unbounded integers, so running out of address space is not modelled.
- Allocator.Heap.Free: requires a NULL pointer or one whose header is a record the allocator created. Passing anything else is undefined in C. The double-free assertion is modelled as the outcome `DoubleFree` with no state change, not as an abort.
- Coalesce.SweepList: free()'s sweep runs on a copy of the record table that is stored back at the end; with a single thread no intermediate state is observable.
