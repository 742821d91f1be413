# memflex allocator — a Dafny model of `src/memory.c`

memflex is a free-list memory allocator. Its heap is a doubly linked list of blocks. Each
block is a header (`size`, `is_free`, `next`, `prev`) followed by `size` payload bytes.
The arena comes from `sbrk`: one region of `DEFAULT_HEAP_SIZE` (640) bytes on first use,
and whole 640-byte units when the list has no block that fits. A request is rounded up to
a multiple of 8. A free block is chosen by first-fit, best-fit or worst-fit. The block is
split when it is more than one header larger than the request. Freed blocks are coalesced
with free list neighbours. `my_calloc` zeroes the first `num * size` bytes of the new
payload (the payload itself may be larger). `my_realloc` shrinks in
place, grows into a free successor, or moves the data to a new block.

The model has four modules:

- `Blocks` (blocks.dfy) describes the heap as a value.
  - The block list is a `seq<Block>` in list order; `next`/`prev` are adjacent positions.
  - Each block carries its payload bytes.
  - A block's address is the prefix sum of the headers and payloads before it. The
    pointer handed out is that address plus `H` (`sizeof(block_header_t)`).
  - `Allocations` is the caller's view: a map from each live pointer to its payload bytes.
  - It defines the list edits the allocator makes (`Split`, `MergeNext`, `Coalesce`,
    `Grow`, `Place`, `Overwrite`). It proves what `Split`, `MergeNext`, `Coalesce`,
    `SetFree` and `Overwrite` do to addresses, the bytes spanned and `Allocations`;
    the corresponding lemmas for `Format`, `Grow` and `Place` are in `Api`.
- `Fit` (fit.dfy) covers the three placement policies.
  - `Chosen` is a reference definition of each policy's answer.
  - `Select` is the list walk, proved to produce that answer.
- `Api` (api.dfy) describes `my_malloc`, `my_free`, `my_calloc` and `my_realloc` as
  functions, and proves what each call promises to its caller.
- `Memory` (heap.dfy) holds the class `Heap`.
  - Its fields `blocks` and `total` are the globals `heap_start_addr` (with its list) and
    `heap_total_size`.
  - It has one method per routine of memory.c, each updating the fields step by step.
  - Each method is proved to keep `total` equal to the bytes the list spans.
  - Each method is proved to leave exactly the state a function describes: `Malloc`,
    `Free`, `Calloc` and `Realloc` that of the matching `Api` function; `HeapInit`,
    `MemoryInit`, `SplitBlock`, `CoalesceBlock`, `ExtendHeap` and `PlaceBlock` that of the
    `Blocks` list edit they perform.

`sbrk` is a parameter. Each call receives the answers `sbrk` would give to the requests
it can make: `None` stands for `(void *)-1`, and `Some(bytes)` is a region of exactly the
requested length. `my_malloc` gets two answers: one for the initial arena and one for
growth. `H` is a positive constant that is left symbolic, so the proofs hold for any
header size.

Two properties one might expect of the allocator do not hold of memory.c:

- The shrinking branch of `my_realloc` (src/memory.c:245-250) splits off a free
  remainder without coalescing it, so a free successor can end up next to it: the list
  can hold two adjacent free blocks after a resize.
- That branch splits with the caller's unrounded size, so a block size need not be a
  multiple of 8.

`Api.ShrinkLeavesAdjacentFree` exhibits both: shrinking a used block to 5 bytes, when a
free block follows it, leaves two adjacent free blocks and a 5-byte block.

For the three placement policies, and when `size + BLOCK_HEADER_SIZE` (src/memory.c:186)
does not wrap around, the final `return NULL` of `my_malloc` (src/memory.c:204), after a
successful growth, can never be reached: `Api.GrowFits` and
`Api.MallocFailsOnlyWhenRefused` prove this.

## Model

| member | source | states |
|---|---|---|
| Blocks.Round8 | src/memory.c:180 | `(size + 7) & ~7` is the least multiple of 8 that is not below the size |
| Blocks.GrowSize | src/memory.c:128-131 | extend_heap asks for a multiple of 640 bytes, the least one not below the 8-rounded request |
| Blocks.PayloadsDisjoint | src/memory.c:201 | a block's payload ends at or before the next block's header, which precedes its pointer |
| Blocks.Handle | src/memory.c:201 | definition of the pointer handed out for a block: its address plus one header, `block + BLOCK_HEADER_SIZE` (inverted at line 212) |
| Blocks.HandleInjective | src/memory.c:212 | two blocks never share a pointer, so a pointer determines its header |
| Blocks.BlockOf | src/memory.c:212 | every live pointer belongs to a used block whose payload is the pointer's bytes |
| Blocks.AllocsAt | src/memory.c:200-201 | a block's pointer is live exactly when the block is used |
| Blocks.SetFree | src/memory.c:200 | definition of an `is_free` write: only that block's flag changes (also my_free at line 213) |
| Blocks.AllocsReplace | src/memory.c:213 | flipping one block's free flag adds or removes only that block's pointer; nothing else moves |
| Blocks.Overwrite | src/memory.c:224 | definition of a memset or memcpy into a payload: its first bytes are replaced, the rest kept (also my_realloc's memcpy at line 272) |
| Blocks.OverwriteEffect | src/memory.c:224 | memset/memcpy into a payload sets its first bytes, keeps the rest, and changes no other allocation |
| Blocks.Format | src/memory.c:14-29 | definition of heap_init's result: one free block behind one header over the region, or no blocks when the region cannot hold a header |
| Blocks.Split | src/memory.c:82-101 | definition of split_block: a block more than a header larger than the size keeps exactly that size and a free block of the rest minus a header follows it; otherwise the list is unchanged |
| Blocks.SplitShape | src/memory.c:82-101 | the block keeps exactly `size` bytes and a free block of the remainder minus a header follows it; below the threshold nothing changes |
| Blocks.SplitKeepsAddresses | src/memory.c:82-101 | the split spans the same bytes; every block keeps its address; the new header sits `size` bytes after the split block's payload |
| Blocks.SplitAllocations | src/memory.c:82-101 | splitting a free block changes no allocation; splitting a used one truncates only its payload |
| Blocks.MergeNext | src/memory.c:105-113 | definition of one merge: the block absorbs its successor, header and payload, and keeps its own free flag |
| Blocks.Coalesce | src/memory.c:103-124 | definition of coalesce: absorb a free successor, then be absorbed by a free predecessor |
| Blocks.Grow | src/memory.c:139-162 | definition of extend_heap's list edit: the granted region becomes a free block after the tail, which is then coalesced |
| Blocks.Place | src/memory.c:197-200 | definition of the end of my_malloc: split the chosen block to the request and mark it used |
| Blocks.MergeShape | src/memory.c:105-113 | absorbing the successor removes one block; the merged size is both sizes plus a header and starts with the block's old bytes; other blocks stay in order |
| Blocks.MergeKeepsAddresses | src/memory.c:105-113 | merging spans the same bytes and moves no other block |
| Blocks.MergeAllocations | src/memory.c:105-113 | absorbing a free successor adds no allocation; a used absorbing block keeps its pointer and holds the merged payload |
| Blocks.CoalesceEffect | src/memory.c:103-124 | coalescing a free block keeps the bytes spanned and every allocation, and removes one block per merge |
| Blocks.CoalesceNoAdjacentFree | src/memory.c:103-124 | if the freed block's neighbours are the only possible free pairs, afterwards there are none |
| Blocks.AbsorbSuccessor | src/memory.c:105-113 | after a free block absorbs a free successor, the only pair that can still be free is the block with its predecessor |
| Blocks.AbsorbedByPredecessor | src/memory.c:115-123 | when that is the only possible free pair, letting a free predecessor absorb the block leaves none |
| Fit.Select | src/memory.c:49-80 | the walk's answer is the policy's: none iff nothing fits, else the first fit, the smallest fit or the largest fit, ties to the earliest |
| Fit.ChosenUnique | src/memory.c:49-80 | the policies' promises leave at most one answer |
| Fit.SelectIsChosen | src/memory.c:49-80 | any index meeting a policy's promise is the one the walk returns |
| Fit.TwoHoles | src/kernel.c:58-70 | with a large hole before a small one and every other fitting block after both and larger than the small hole (as the free rest of the pool is): first-fit takes the large hole and best-fit the small one; worst-fit never takes the small hole, and takes the large one unless a later block is larger |
| Api.Started | src/memory.c:172-178 | definition of my_malloc's first step: an empty heap is initialised from the first sbrk answer |
| Api.MallocSpec | src/memory.c:167-205 | definition of my_malloc: NULL for size 0 or a refused first arena; otherwise the policy's block for the 8-rounded size, placed, else growth and a retry, else NULL |
| Api.PlaceEffect | src/memory.c:197-202 | the chosen block becomes used at the same address with exactly the request when split, else its whole size; only its pointer is added to the allocations |
| Api.PlaceNoAdjacentFree | src/memory.c:197-202 | placing a request introduces no adjacent free pair |
| Api.GrowEffect | src/memory.c:126-165 | growth adds exactly the new region to the bytes spanned, changes no allocation, and keeps the list free of adjacent free pairs |
| Api.GrowFits | src/memory.c:186-194 | after growth sized `size + H`, the retry of find_free_block finds a block under every policy |
| Api.FormatEffect | src/memory.c:14-29 | a first arena of at least a header becomes one free block spanning the whole region, with no allocations; a smaller one gives no blocks |
| Api.MallocFailsOnlyWhenRefused | src/memory.c:167-205 | my_malloc returns NULL iff the size is 0, or sbrk refused the first arena, or nothing fits and sbrk refused growth |
| Api.MallocAllocations | src/memory.c:167-205 | a returned pointer was not live before and is live after, with at least the 8-rounded size; no other allocation changes; on NULL none changes |
| Api.MallocServes | src/memory.c:167-205 | a pointer my_malloc returns is live and holds at least the bytes asked for, so my_calloc's memset stays inside it |
| Api.MallocNoAdjacentFree | src/memory.c:167-205 | my_malloc keeps the list free of adjacent free blocks |
| Api.MallocDistinct | tests/test_suite.c:8-21 | two successful allocations return different pointers, both live |
| Api.LiveAllocationsDisjoint | src/memory.c:197-202 | the payloads of two live allocations do not overlap |
| Api.FreeSpec | src/memory.c:207-216 | definition of my_free: NULL is ignored; a live pointer's block is marked free and coalesced |
| Api.FreeEffect | src/memory.c:207-216 | my_free removes exactly the freed pointer, spans the same bytes, drops one block per merge, and keeps the list free of adjacent free blocks |
| Api.FreedBlockStays | src/memory.c:207-216 | freeing a used block with a used predecessor leaves it free at the same pointer, at least as large, with the blocks before it untouched |
| Api.FreedHoleIsReused | tests/test_suite.c:23-39 | after freeing a block whose predecessor is used, whether or not a free successor is merged into it, first-fit with no earlier fit hands the same pointer back |
| Api.CallocSpec | src/memory.c:218-227 | definition of my_calloc: my_malloc of num * size bytes, then those bytes of a returned block set to zero |
| Api.CallocZeroes | src/memory.c:218-227 | my_calloc returns my_malloc's pointer for num * size bytes; on NULL no allocation changes; a returned pointer is new, its first num * size bytes are zero, and no other allocation changes |
| Api.ZeroFill | src/memory.c:222-225 | definition of my_calloc's memset step: NULL is left alone; otherwise the first n bytes of the returned block are set to zero |
| Api.ZeroFillEffect | src/memory.c:222-225 | the memset zeroes the first n bytes of the returned allocation, keeps its length, and changes no other allocation; NULL is left alone |
| Api.CallocBytesIsProduct | src/memory.c:220 | the byte count my_calloc passes to my_malloc is `num * size` |
| Api.FitsInPlace | src/memory.c:246-254 | definition of my_realloc's two in-place tests: the block holds `size` bytes, or its free successor together with the absorbed header brings enough |
| Api.ReallocSpec | src/memory.c:229-276 | definition of my_realloc: NULL pointer is my_malloc, size 0 is my_free; otherwise shrink in place, grow into a free successor, or my_malloc, copy and free |
| Api.ReallocEffect | src/memory.c:229-276 | same pointer iff the block fits in place; NULL leaves the heap untouched; the result holds at least `size` bytes whose first min(old, size) are the old bytes; a moved result is new and the old pointer is gone |
| Api.ShrinkInPlace | src/memory.c:245-250 | shrinking keeps the pointer and the first `size` bytes |
| Api.GrowInPlace | src/memory.c:252-266 | growing into a free successor keeps the pointer and all old bytes, and holds at least `size` |
| Api.ReallocMoves | src/memory.c:268-275 | a moved block carries the old bytes to a new pointer and frees the old one; a failed my_malloc changes nothing |
| Api.ShrinkLeavesAdjacentFree | src/memory.c:245-250 | a shrink next to a free block leaves two adjacent free blocks and an unrounded size |
| Memory.Heap.Valid | src/memory.c:139 | invariant: heap_total_size equals one header plus one payload summed over the list (set at line 22, grown here by extend_heap) |
| Memory.Heap.constructor | src/memory.c:7-8 | no heap: no blocks, size counter 0 |
| Memory.Heap.HeapInit | src/memory.c:14-29 | a missing region or one smaller than a header is ignored; otherwise the heap becomes one free block over the whole region, with the counter set to its size |
| Memory.Heap.MemoryInit | src/memory.c:31-41 | -1 with nothing changed when sbrk refuses; otherwise 0 and heap_init on the region |
| Memory.Heap.Reset | src/memory.c:43-47 | the heap is forgotten and the counter is 0 |
| Memory.Heap.FindFreeBlock | src/memory.c:49-80 | the loop returns the policy's answer (Fit.Select) |
| Memory.Heap.SplitBlock | src/memory.c:82-101 | the list becomes the split list; the counter is unchanged and still matches |
| Memory.Heap.CoalesceBlock | src/memory.c:103-124 | the list becomes the coalesced list, with one block fewer per merge and the same allocations |
| Memory.Heap.ExtendHeap | src/memory.c:126-165 | on success the counter grows by the acquired units and the region is appended and coalesced; on refusal nothing changes; the allocations never change |
| Memory.Heap.Malloc | src/memory.c:167-205 | the state and result of Api.MallocSpec; a returned pointer is new and live with at least the 8-rounded size, no other allocation changes, and NULL changes none; no adjacent free blocks appear |
| Memory.Heap.PlaceBlock | src/memory.c:197-202 | the chosen block is split and marked used; the pointer is the byte after its header |
| Memory.Heap.BlockFor | src/memory.c:212 | a live pointer's block is recovered from the pointer |
| Memory.Heap.Free | src/memory.c:207-216 | the state of Api.FreeSpec: exactly the freed pointer leaves the allocations |
| Memory.Heap.Calloc | src/memory.c:218-227 | the state and result of Api.CallocSpec; a returned pointer is new, its first num * size bytes are zero, and no other allocation changes |
| Memory.Heap.Realloc | src/memory.c:229-276 | the state and result of Api.ReallocSpec, keeping the first min(old, size) bytes, and untouched on failure |
| Memory.Heap.BlockCount | src/memory.c:309-319 | the counting loop returns the number of blocks in the list |

## Left out

- print_heap_stats, print_block_count, print_total_size and dump_heap_state
  (src/memory.c:278-367) only print or write a file, so they are not modelled.
- The header's byte layout is not modelled. When a header is absorbed by a merge, the
  model fills its bytes with zeros (`Blocks.HeaderGap`). Real memory keeps the stale
  header bytes, which a caller can see in the tail of a grown payload.
- Addresses are offsets from the start of the first region in list order. Successive
  `sbrk` regions are taken to follow each other; a region placed elsewhere is not modelled.
- `size_t` is unbounded here. No wrap-around near the top of `size_t` is modelled:
  not that of `num * size` in my_calloc (src/memory.c:220), of `size + 7` (lines 128 and
  180), of `size + BLOCK_HEADER_SIZE` (line 186), or of `size + DEFAULT_HEAP_SIZE - 1` and
  `num_units * DEFAULT_HEAP_SIZE` in extend_heap (lines 130-131). With `size` equal to
  `SIZE_MAX - 7`, for instance, line 186 wraps to a small request, growth can succeed, the
  retry finds no block, and line 204 returns NULL; the model has no such case.
- The tail walk of extend_heap is kept as a loop over list positions, not over `next`
  links. Recovering a header from a pointer is a search by address
  (`Memory.Heap.BlockFor`), not pointer arithmetic.
- Undefined behaviour is excluded by preconditions: `my_free` and `my_realloc` of a
  pointer that is not live (double free, foreign pointer), and `coalesce` on a used
  block, which memory.c never does.
- `alloc_algo_t` values other than the three policies are not modelled (`Fit.Algo` has
  exactly three). For such a value find_free_block returns NULL, and my_malloc reaches
  its final `return NULL` after growing the heap.
- src/main.c, src/kernel.c (beyond the placement scenario it demonstrates),
  tests/benchmark_memory.c and the visualiser are not part of this model.
