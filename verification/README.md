# allocators, modelled in Dafny

A model of the C library `allocators` covering the following components:

- **The allocator capability.** Every allocator is an `allocator_t`: a synchronized flag plus one resize callback, `reallocate_fn(allocator, memory, size)`, with four meanings.
  - (NULL, 0) does nothing.
  - (NULL, n) allocates.
  - (p, 0) frees.
  - (p, n) resizes.

  `allocate`, `deallocate` and `reallocate` are three ways of calling that one function. The `create` and `create_array` macros build requests for `sizeof(T)` bytes and `sizeof(T) * n` bytes.
- **The fixed buffer allocator.** A caller's buffer is tiled by boundary-tag nodes: a header `{is_hole, size, previous}` followed by the node's payload. It serves first fit and splits holes on reservation. On release it merges a used node with neighbouring holes. Debug-offset lookup is included.
- **libmem.** The statistics and helpers built on the fixed buffer allocator:
  - `nbloclibre`, `nblocalloue`, `mem_pgrand_libre` and `mem_small_free`;
  - `mem_est_alloue`;
  - `getNodeAtIndex` and `liberebloc`;
  - `clearmem`.

  libmem is modelled over the corrected fixed buffer allocator (see "## Findings").
- **The arena allocator.** A head-first chain of blocks obtained from a backing allocator. Frees do nothing, a growing resize adds a new block and copies the payload, and destroy hands every block back.
- **The synchronized decorator.** It wraps a child allocator. Each call is bracketed by a semaphore wait and signal, and the call itself is forwarded to the child.

Modules:

- `Wrappers` holds `Option`.
- `Allocator` holds the capability, the four-case request classification and the generic entry points.
- `Layout` holds the node sequence and its algebra: sums and offsets, back-links, coalescing, and the allocation map.
- `FixedBuffer` is the fixed buffer allocator with the defects corrected. `FixedBufferDefects` models the code as written and exhibits each defect against the corrected model.
- `LibMem` holds the traversals, each checked against a fold over the node sequence.
- `Arena` and `Synchronized` model the other two allocators.

How the model represents the C program:

- **Pointers.** A pointer is `Option<nat>`, with `None` standing for NULL. `sizeof(node_t)` and the record sizes are abstract positive constants.
- **Node list.** The fixed buffer allocator's node list is a sequence of headers in address order. A node's address is the sum of the header and payload bytes before it.
- **Validity.** The state `Valid` has three parts:
  - the nodes tile the buffer exactly;
  - every back-link names the preceding header;
  - no two holes are neighbours.

  Every operation keeps `Valid`.
- **Allocations.** The map from payload address to payload size of the used nodes is the abstract view of the state. A valid state is determined by it, so `FixedBuffer.StateDetermined` turns statements about allocations into statements about the exact headers.
- **Backing and child allocators.** Their answers are oracle parameters, and the requests made to them are part of each result. A growing resize's `memcpy` is recorded as a `Copy(src, dst, len)`.

## Model

| member | source | states |
|---|---|---|
| Allocator.Classify | include/allocators/allocator.h:32-40 | The four argument shapes map to exactly one request each: no-op, allocation, free, resize. Each is stated both ways. |
| Allocator.ClassifyRoundTrip | include/allocators/allocator.h:32-40 | No argument pair is lost by the classification, and every well-formed request comes from exactly one argument pair. |
| Allocator.EntryPointRequests | src/allocator.c:3-16 | allocate, deallocate and reallocate each issue exactly one resize call: (NULL, size), (p, 0) and (p, size). |
| Allocator.VariantDeterminedByResize | include/allocators/allocator.h:12-15 | Two allocators whose resize callbacks agree behave identically through every entry point. |
| Allocator.CreateRequest | include/allocators/allocator.h:48-49 | create asks for sizeof(T) bytes through allocate. |
| Allocator.CreateArrayWraps | include/allocators/allocator.h:59-60 | The size_t product in create_array wraps: 8 bytes times 2^61 + 1 elements asks for 8 bytes. |
| Allocator.CreateArrayRequest | include/allocators/allocator.h:59-60 | The checked array request: refused exactly when sizeof(T) * n exceeds SIZE_MAX, otherwise at least the array's bytes. |
| Allocator.CreateArrayAgreesWhenNoOverflow | include/allocators/allocator.h:59-60 | When the product fits, the checked request equals the one as written. |
| Layout.LayoutDetermined | src/fixed_buffer_allocator.c:111-179 | Two linked, coalesced node runs with the same extent and the same allocations are equal, back-links included. |
| Layout.AllocationsSeparated | src/fixed_buffer_allocator.c:11-24 | Allocations never overlap: each payload plus a header ends at or before the next allocation. |
| FixedBuffer.Init | src/fixed_buffer_allocator.c:257-275 | Init gives one hole spanning the buffer minus a header, no back-link, and first fit for a null strategy. The state is valid with no allocation. |
| FixedBuffer.NodeNext | src/fixed_buffer_allocator.c:64-75 | The bound test yields the next node exactly when one exists. Its header lies at this node's end and inside the buffer. |
| FixedBuffer.NextHeaderBound | src/fixed_buffer_allocator.c:41-44 | A node's end is the next header's offset; the last node ends exactly at the buffer's end. |
| FixedBuffer.NodeAtIndexFrom | src/libmem.c:7-26 | Stepping `steps` times with node_next from node i reaches node i + steps, or none when the list is shorter. |
| FixedBuffer.FindFrom | src/fixed_buffer_allocator.c:85-102 | node_find returns the first node whose payload starts at p; any node with that payload is found, holes included. |
| FixedBuffer.PayloadInjective | src/fixed_buffer_allocator.c:31-34 | Distinct nodes have distinct payload addresses. |
| FixedBuffer.FindInsideBuffer | src/fixed_buffer_allocator.c:77-85 | A pointer node_find accepts lies inside the buffer, past the first header. |
| FixedBuffer.FindMissesInterior | src/fixed_buffer_allocator.c:91-96 | A pointer into the middle of a payload, or into the following header, is not found. |
| FixedBuffer.FirstFitFrom | src/fixed_buffer_allocator.c:195-206 | The scan returns the first hole holding at least n bytes, and none exactly when no hole does. |
| FixedBuffer.Reserve | src/fixed_buffer_allocator.c:111-141 | Reserving hole i keeps the state valid; the node becomes used at the same address. It splits exactly when the hole exceeds n by more than a header, keeping n bytes and a linked remainder hole. Exactly one allocation is added. |
| FixedBuffer.Release | src/fixed_buffer_allocator.c:148-179 | Releasing used node i keeps the state valid and merges it with neighbouring holes into one hole spanning the merge window. Exactly its allocation is removed. |
| FixedBuffer.MergeSteps | src/fixed_buffer_allocator.c:153-175 | The backward merge through the back-link and the forward merge through node_next cover exactly the merge window, and the sizes add up to its extent. |
| FixedBuffer.ReleaseShape | src/fixed_buffer_allocator.c:153-178 | The node list after the two merge steps is the prefix, the merged hole and the relinked suffix. |
| FixedBuffer.FindAllocation | src/fixed_buffer_allocator.c:85-102 | p is allocated exactly when node_find reaches a used node at p, and the allocation's size is that node's. |
| FixedBuffer.AllocationsDisjoint | src/fixed_buffer_allocator.c:111-179 | In a valid state every allocation lies inside the buffer and no two overlap. |
| FixedBuffer.StateDetermined | src/fixed_buffer_allocator.c:111-179 | Two valid states over the same buffer with the same allocations are equal. |
| FixedBuffer.AllocateBlock | src/fixed_buffer_allocator.c:193-217 | Allocation succeeds exactly when some hole fits, at the first fitting hole's payload. The block is fresh and holds n to n + header bytes, and it is the only change. NULL changes nothing. |
| FixedBuffer.FreeBlock | src/fixed_buffer_allocator.c:218-230 | Freeing p removes exactly p from the allocations; an unknown p changes nothing. |
| FixedBuffer.ResizeBlock | src/fixed_buffer_allocator.c:231-248 | An unknown p gives NULL with no change, and a block already large enough returns p unchanged. Otherwise the block moves. |
| FixedBuffer.Move | src/fixed_buffer_allocator.c:245-247 | A move succeeds exactly when a hole fits, copying the old payload size from p to the new block. The new block replaces p in the allocations; on failure nothing changes and nothing is copied. |
| FixedBuffer.Resize | src/fixed_buffer_allocator.c:185-249 | Any call keeps the state valid and frees return NULL. Only the returned block can be new, only the block named by the call can disappear, and a copy goes from that block to the returned one. |
| FixedBuffer.DebugMemory | src/fixed_buffer_allocator.c:298-310 | The offset of p from the buffer when p is a node's payload, and SIZE_MAX exactly otherwise. An allocation's offset range lies inside the buffer. |
| FixedBuffer.AllocateFreeRoundTrip | src/fixed_buffer_allocator.c:193-230 | Freeing a block just allocated restores the previous state exactly, headers and back-links included. |
| FixedBuffer.SecondFree | src/fixed_buffer_allocator.c:148-152 | After a release, freeing the same pointer again is accepted exactly when the node had merged into a preceding hole. Otherwise node_release's assertion refuses it. |
| FixedBufferDefects.SplitRemainderAsWritten | src/fixed_buffer_allocator.c:118 | The remainder is hole - n - header when that is non-negative, and otherwise wraps to 2^64 minus the shortfall. |
| FixedBufferDefects.ReserveAsWritten | src/fixed_buffer_allocator.c:111-141 | node_reserve as written never removes a header. |
| FixedBufferDefects.ReserveWrapBreaksTiling | src/fixed_buffer_allocator.c:118-122 | For a hole of n to n + header - 1 bytes, the split as written records a remainder near 2^64 and the nodes overrun the buffer. The corrected Reserve uses the whole hole. |
| FixedBufferDefects.ReserveSplitBreaksLinks | src/fixed_buffer_allocator.c:126-135 | Every split as written leaves the list unlinked, because node_next of the shrunk node is the split itself. The corrected Reserve stays linked. |
| FixedBufferDefects.ReleaseAsWrittenAgrees | src/fixed_buffer_allocator.c:153-178 | Apart from a backward-only merge with a successor, node_release as written equals the corrected release. |
| FixedBufferDefects.StaleBackLink | src/fixed_buffer_allocator.c:157-172 | After a backward-only merge, the successor's back-link still names the released header inside the merged hole, and the list is unlinked. |
| FixedBufferDefects.ResizeAsWritten | src/fixed_buffer_allocator.c:231-248 | With the corrected allocation step, the resize branch as written leaves a valid layout; its shrink result and its copy are the source's. |
| FixedBufferDefects.ShrinkReturnsHeader | src/fixed_buffer_allocator.c:240-243 | A shrinking resize as written returns p minus a header; the corrected one returns p. |
| FixedBufferDefects.GrowCopiesToNull | src/fixed_buffer_allocator.c:245-246 | A growing resize with no fitting hole copies to NULL as written; the corrected one copies nothing. |
| FixedBufferDefects.GrowLeaksOldBlock | src/fixed_buffer_allocator.c:245-247 | A growing resize as written leaves the old block allocated; the corrected one releases it. |
| LibMem.BytesPartition | src/libmem.c:106-142 | Free payload bytes plus headers and used payload bytes are exactly the buffer's bytes. |
| LibMem.LargestHole | src/libmem.c:144-165 | The selected index, if any, is a hole of the list. |
| LibMem.LargestHoleIsLargest | src/libmem.c:144-165 | There is no largest hole exactly when there is no hole. Otherwise it is at least every hole's size and strictly larger than every earlier hole's (strict comparison, first kept). |
| LibMem.SmallHolesBounds | src/libmem.c:167-183 | The small-hole count is monotone in the threshold and never exceeds the hole count. |
| LibMem.SmallHolesAll | src/libmem.c:167-183 | With a threshold at least every hole's size, every hole counts. |
| LibMem.FreeBytes | src/libmem.c:106-122 | nbloclibre's loop sums the hole payloads; with nblocalloue's total it makes the buffer size. |
| LibMem.AllocatedBytes | src/libmem.c:124-142 | nblocalloue's loop sums every header and the used payloads; with nbloclibre's total it makes the buffer size. |
| LibMem.LargestFree | src/libmem.c:144-165 | mem_pgrand_libre returns the earliest largest hole's size, 0 without a hole, and is at least every hole's size. |
| LibMem.SmallFree | src/libmem.c:167-183 | mem_small_free counts holes of at most the threshold, never more than all holes. |
| LibMem.IsAllocated | src/libmem.c:185-188 | mem_est_alloue holds exactly when p is some node's payload address, hole or not; every live allocation qualifies. |
| LibMem.NodeAtIndex | src/libmem.c:7-26 | getNodeAtIndex yields node `block` exactly when the list has more than `block` nodes. |
| LibMem.FreeByIndex | src/libmem.c:80-91 | liberebloc removes exactly the indexed node's allocation when that node is used, and otherwise changes nothing. |
| LibMem.FreeByIndexReleases | src/libmem.c:80-91 | liberebloc on a used node equals node_release of that node. |
| LibMem.ClearAll | src/libmem.c:93-104 | Over the corrected allocator, clearmem deallocates every used payload in address order, leaves no allocation, and leaves the buffer as the single hole init creates. |
| LibMem.ClearNode | src/libmem.c:98-102 | One visit of an original header drops that node's allocation, if any, and keeps every later allocation. |
| LibMem.ClearStep | src/libmem.c:96-103 | Allocations at or after node i's payload, minus node i's own, are those at or after node i + 1's payload. |
| Arena.Create | src/arena_allocator.c:106-126 | NULL without a backing allocator, or when the record request fails. Otherwise an unsynchronized arena with an empty chain, after exactly one record request. |
| Arena.FindChunk | src/arena_allocator.c:14-27 | find_node returns the first chunk from the head whose payload is p, and none exactly when no chunk has it. |
| Arena.BlockRequest | src/arena_allocator.c:35-42 | The backing request is header + n bytes, refused exactly when that exceeds SIZE_MAX. |
| Arena.AllocateChunk | src/arena_allocator.c:35-49 | Allocation succeeds exactly when the request fits and the backing allocator answers. The new block becomes the head and its payload is returned; failure changes nothing. |
| Arena.Reallocate | src/arena_allocator.c:51-81 | An unknown p gives NULL and a large enough block returns p. Otherwise a new head block of n bytes is added and the old payload's size is copied; the old block stays in the chain. |
| Arena.Resize | src/arena_allocator.c:83-104 | Frees do nothing and NULL changes nothing. The chain is kept or grows by one block at the head, and a copy goes from p to the result. |
| Arena.ChainOnlyGrows | src/arena_allocator.c:83-104 | After any call the old chain is a suffix of the new one, and every payload found before is still found. |
| Arena.Run | src/arena_allocator.c:83-104 | Over any sequence of calls the starting chain stays a suffix and the arena's identity does not change. |
| Arena.DestroyRequests | src/arena_allocator.c:128-141 | Destroy makes one free per block, head first, then one for the arena record. |
| Arena.Destroy | src/arena_allocator.c:128-141 | The destroy loop issues exactly that request sequence. |
| Arena.CreateThenDestroy | src/arena_allocator.c:106-141 | Whatever calls the arena serves after create, destroy's last request frees the record create obtained; with no calls, that free is destroy's only request. |
| Arena.CopyLengthAsWritten | src/arena_allocator.c:72-74 | The copy length as written is the smaller of the uninitialised size field and n. |
| Arena.CopyLengthWrong | src/arena_allocator.c:65-76 | That length can be shorter than the old payload (data lost) or longer (overread). The corrected copy takes exactly the old payload. |
| Arena.BlockRequestWraps | src/arena_allocator.c:37 | Asking for SIZE_MAX bytes wraps the backing request to header - 1 bytes, which the corrected request refuses. |
| Synchronized.Create | src/synchronized_allocator.c:21-52 | NULL stays NULL and a synchronized child is returned as is. Otherwise the record is requested from the child; a failed semaphore init frees it again; success yields a synchronized handle with a one-permit mutex. |
| Synchronized.WrapIdempotent | src/synchronized_allocator.c:28-32 | Wrapping an already wrapped allocator returns it unchanged with no request. |
| Synchronized.Forward | src/synchronized_allocator.c:12-19 | A forwarded call returns exactly the child's reallocate result and state, with wait, child call, signal; the semaphore is restored. |
| Synchronized.DecoratedRunBalanced | src/synchronized_allocator.c:12-19 | On any sequence of calls through the decorator there is one wait and one signal per call, and every prefix has at most one more wait than signals, so no two calls are inside the child at once. |
| Synchronized.DecoratedRunIsChildRun | src/synchronized_allocator.c:12-19 | On any sequence of calls the decorator reaches the child's state, returns the child's results, and leaves the semaphore as it was. |
| Synchronized.Destroy | src/synchronized_allocator.c:54-69 | Destroy does nothing unless the handle's callback is the decorator's. Otherwise it waits and signals before deinitialising, with the permit count back where it was, then frees the record through the decorator's child allocator. |
| Synchronized.CreateThenDestroy | src/synchronized_allocator.c:34-69 | Destroying a decorator that create made frees, through the child it was created over, exactly the record create allocated from that child, and deinitialises the semaphore create initialised while it holds its one permit. |
| Synchronized.SessionBalanced | src/synchronized_allocator.c:12-69 | Any calls followed by destroy form a balanced trace, and the semaphore is deinitialised only after every wait has its signal. |

## Left out

- Best fit, worst fit and next fit: the header declares only the strategy objects `FBS_BEST_FIT`, `FBS_WORST_FIT` and `FBS_NEXT_FIT`, and the source defines no behaviour for them. `fixed_buffer_allocator_set_strategy` is called by libmem and `main.c` but is neither declared nor defined. `FBS_FIRST_FIT` is the only strategy modelled.
- `fixed_buffer_allocator_debug`, `affiche_etat_memoire` and `affiche_parametre_memoire`: they only print to a file.
- libmem's `initmem`, `setstrategy`, `alloumem` and `liberemem` are one-line forwards to init, set_strategy, allocate and deallocate on the global `fba`. The global is replaced by an explicit allocator parameter. `initmem`'s exit on an unknown strategy is I/O.
- `memlibre` is a macro for `nbloclibre`, so it is LibMem.FreeBytes; only its `fprintf` of the result is left out.
- libmem calls public `fixed_buffer_node_first/next/memory/find`, which the allocator source only defines as static `node_*` functions. The model takes them to be the same functions.
- `allocator.c` calls the field `reallocate_fn` while the header names it `__reallocate_fn`. The model uses the header's single callback field.
- The bytes moved by `memcpy` are not modelled; each copy is recorded by source, destination and length.
- Threads and blocking are not modelled. The semaphore is a permit count and calls run one at a time. `src/sem.c` is not part of this model; a semaphore init failure is a parameter.
- `direct_allocator.c`, `c_allocator.c` and `main.c` are not part of this model.
- LibMem.NodeAtIndex: the loop counter in `getNodeAtIndex` is an `int` compared with a `size_t`. The model counts with unbounded integers, so indices beyond INT_MAX are not modelled.
- LibMem.FreeBytes: the source adds in size_t. The sums are bounded by the buffer size, so no wrap is modelled.
- FixedBuffer.Init: requires the buffer to hold at least one header and to be smaller than SIZE_MAX. A smaller buffer makes the source write a header past the buffer's end.
- FixedBuffer.Resize: a free (p, 0) of a hole's payload is a precondition, because `node_release` asserts the node is in use and the program stops. For this reason the fixed buffer resize function is not plugged into the generic `Allocator` entry points.
- Synchronized.Forward: requires a free permit. A wait without one would block, and blocking is not modelled.
- Synchronized.Destroy: the decorator record behind the handle is passed explicitly, in place of the pointer arithmetic that recovers it.
- LibMem.ClearAll: proved over the corrected fixed buffer allocator only. On the code as written, two first-fit allocations leave the second node linked to itself (src/fixed_buffer_allocator.c:126-135), and clearmem can then end with neighbouring holes.
- FixedBufferDefects.ResizeAsWritten: the growing branch calls the corrected allocation step (FixedBuffer.AllocateBlock), not `ReserveAsWritten`. With the reservation as written, a grow into a splittable hole leaves the list unlinked (FixedBufferDefects.ReserveSplitBreaksLinks), so validity is claimed only for this combination.
- FixedBuffer.Move: when p is a hole's payload, which `node_find` accepts, the corrected move keeps the old node instead of releasing it. `node_release` would stop the program on a hole, and the source as written releases nothing here.
- Arena.Create: the arena record's address is the backing allocator's answer. The model does not require that answer to be fresh.

## Findings

| source | as written | input that shows it | evidently intended | confidence | as-written member | corrected member |
|---|---|---|---|---|---|---|
| src/fixed_buffer_allocator.c:118-122 | `node->size - size - sizeof(node_t)` is computed in size_t and compared with 0 | a hole of exactly n bytes (any hole of n to n + header - 1 bytes) | split only when the hole exceeds n by more than a header, otherwise use the whole hole | high, not executed | FixedBufferDefects.ReserveWrapBreaksTiling | FixedBuffer.Reserve |
| src/fixed_buffer_allocator.c:126-135 | after shrinking the node, `node_next(node)` is the new split, so `split->previous = split`; the old successor keeps pointing at the reserved node | any hole larger than n + header | the successor's back-link names the split and the split's names the reserved node | high, not executed | FixedBufferDefects.ReserveSplitBreaksLinks | FixedBuffer.Reserve |
| src/fixed_buffer_allocator.c:157-172 | the successor is relinked only when a following hole is absorbed | release a used node between a hole and a used node | the node after the merged hole always names the merged hole | high, not executed | FixedBufferDefects.StaleBackLink | FixedBuffer.Release |
| src/fixed_buffer_allocator.c:240-243 | a shrinking resize returns `node`, the header | resize(p, n) with n at most p's size | return the payload p | high, not executed | FixedBufferDefects.ShrinkReturnsHeader | FixedBuffer.ResizeBlock |
| src/fixed_buffer_allocator.c:245-246 | `memcpy` into the allocation result without a NULL check | grow p when no hole fits | return NULL and copy nothing | high, not executed | FixedBufferDefects.GrowCopiesToNull | FixedBuffer.Move |
| src/fixed_buffer_allocator.c:245-247 | the old node is never released after a growing move | grow p when a hole fits | release the old node after the copy | high, not executed | FixedBufferDefects.GrowLeaksOldBlock | FixedBuffer.Move |
| src/arena_allocator.c:74 | the copy length reads the new node's size field before it is set | a growing reallocate over a block whose stale size field is smaller than the old payload | copy the old payload's size | high, not executed | Arena.CopyLengthWrong | Arena.Reallocate |
| src/arena_allocator.c:37 | `sizeof(node_t) + size` wraps in size_t | allocate SIZE_MAX bytes | refuse a request that cannot be represented | medium, not executed | Arena.BlockRequestWraps | Arena.AllocateChunk |
| include/allocators/allocator.h:59-60 | `sizeof(_Type) * (_size)` wraps in size_t | create_array of 2^61 + 1 eight-byte elements | refuse an array that cannot be represented | medium, not executed | Allocator.CreateArrayWraps | Allocator.CreateArrayRequest |
