# Lab byte allocator, modelled in Dafny

`LabByteAllocator` is the heap byte allocator of an ArceOS lab. It is tuned to one cyclic allocation workload. The heap `[heap_start, heap_end)` is split into two bump regions:

- **segment A** is the first `ITEM_EVEN_SIZE` = 704932 bytes. It takes the workload's fixed-size records (384, 192 or 96 bytes at alignment 8) and the byte-aligned requests at even positions of a 15-step cycle.
- **segment B** is everything after segment A. It takes all other requests.

Each segment keeps a cursor and a count of live allocations. Freeing only decrements a count, and a segment whose count reaches zero is reclaimed by moving its cursor back to its base. Startup works in two steps. The first 32-byte request with the counter at 0 fails on purpose with `NoMemory`, which makes the host grow the heap. `add_memory` places segment B's cursor after segment A whenever the counter is at 0 and the last request made at counter 0 was 32 bytes, as right after the probe. That condition is not a one-time phase: any later 32-byte request that leaves the counter at 0 brings it back.

The project has four modules:

- `usize.dfy`, module `Usize`: word arithmetic on `nat`. It holds wrapping subtraction, align-up, and a bit-level `&`/`!`. It proves that the source's mask `(pos + align - 1) & !(align - 1)` is arithmetic align-up for every power-of-two alignment, as long as `pos + align - 1` fits in a 64-bit word.
- `lab.dfy`, module `Lab`: the nine fields as a `State` value, and one function per operation (`Init`, `AddMemory`, `Alloc`, `Dealloc`, `TotalBytes`). Each function's contract states the source's promises: the classifier, the probe, the bump reserve, segment A's bound and reclamation on free.
- `runs.dfy`, module `Runs`: sequences of host calls and the event each call produces. It holds induction lemmas over every run: the probe fires at most once, the counter counts committed byte requests modulo 15, byte requests alternate between the segments, and live counts balance.
- `allocator.dfy`, module `Allocator`: the class `LabByteAllocator`. Its fields are updated in place by `Init`, `AddMemory`, `Alloc` and `Dealloc`. Each method is proved to produce the state (and result) of the matching `Lab` function, so everything proved about the functions holds of the object.

Subtractions that can go below zero follow a build without overflow checks, where `usize` wraps modulo 2^64. This applies to `layout.size() - 32` (lib.rs:85) and to `heap_end - b_pos` (lib.rs:162). With overflow checks on, every request smaller than 32 bytes made with the counter at 0 would panic. `alloc`'s result is `Ok(addr)`, `NoMemory`, or `Abort` when the assertion on segment A's bound panics.

### Behaviour of the source worth knowing

- The probe fires on any request made with the counter at 0, a size of 32 and the flag still clear (`Lab.Path`). That need not be the first request of the run.
- The counter moves only when a byte request commits. A refused or probed request leaves it alone. A request committed at address 0, which the null check then reports as `NoMemory`, still moves it (`Runs.CounterCountsByteAllocs`).
- A returned block lies inside the heap whenever the cursor it is cut from does (`Lab.ReturnedBlockInHeap`). After the intended start-up (`init`, the probe, `add_memory`) both cursors are at their bases (`Lab.BootstrapPlacesCursors`), and every later call except `init` keeps them at or above the heap start, so every address a run hands out lies at or above it (`Runs.RunBlocksInHeap`). Segment B's cursor starts at 0. An `add_memory` made while bootstrapping places it at its base, and so does every `dealloc` that leaves segment B empty. If the first request after `init` is not the 32-byte probe, the next `add_memory` leaves the cursor where it was, and segment B hands out addresses below the heap. In `Lab.UnplacedSegmentB` a first 64-byte request is cut at address 0: it commits, so segment B's cursor moves to 64 and its count to 1, and only then does the null check report `NoMemory`. After `add_memory` the same request is handed address 64, below a heap at 0x1000. This lasts until a free empties segment B, or until a later probe and the `add_memory` after it place the cursor (`Lab.ProbePlacesSegmentB`).
- `alloc` and `dealloc` never move a cursor backwards over a live block (`Lab.AllocNeverMovesCursorBack`, `Lab.DeallocKeepsLiveCursors`). `add_memory` can. A 32-byte request at counter 0 that leaves the counter at 0 (any alignment but 1) records `delta == 0` again, so the next `add_memory` puts segment B's cursor back at its base while segment B still holds live blocks (`Lab.ThirtyTwoBytesReopenBootstrap`). The following requests are then handed addresses of blocks that are still live (`Lab.SegmentBReplacedOverLiveBlock`). In the same state `total_bytes` reports `ITEM_EVEN_SIZE`.
- `dealloc` classifies with the current counter, not the one the allocation was made with. So a byte allocation freed with its own layout can be credited to a segment whose count is 0 (`Lab.ConformingByteFreeFindsEmptySegment`, `Lab.ByteFreeAfterBootstrap`).

## Model

| member | source | states |
|---|---|---|
| `Usize.WrappingSub` | arceos/labs/lab_allocator/src/lib.rs:85 | The wrapped difference is below 2^64, equals `a - b` when that is in range, adding `b` back gives `a` modulo 2^64, and it is zero exactly when `a == b`. |
| `Usize.AlignUp` | arceos/labs/lab_allocator/src/lib.rs:104 | The aligned start is a multiple of `align`, at least `pos` and less than `pos + align`: the least multiple not below `pos`. |
| `Usize.MaskRoundsUp` | arceos/labs/lab_allocator/src/lib.rs:104 | For a power-of-two `align` with `pos + align - 1` below 2^64, the bitwise mask `(pos + align - 1) & !(align - 1)` equals `AlignUp(pos, align)`. |
| `Usize.ClearLowBits` | arceos/labs/lab_allocator/src/lib.rs:104 | Masking a value below a power of two `m` with `m - a` rounds it down to a multiple of the power of two `a`. |
| `Lab.Classify` | arceos/labs/lab_allocator/src/lib.rs:95-102 | Alignment-1 requests go to A exactly at even counter values, whatever their size. Alignment-8 requests go to A exactly when their size is 384, 192 or 96, whatever the counter. Every other alignment goes to B. |
| `Lab.Init` | arceos/labs/lab_allocator/src/lib.rs:52-60 | Sets the heap bounds to `[start, start + size)` and puts segment A's cursor at its base. Segment B's cursor, both counts, the counter, `delta` and the probe flag are unchanged. |
| `Lab.AddMemory` | arceos/labs/lab_allocator/src/lib.rs:62-74 | Sets the heap end to `start + size` and never changes the heap start. Segment B's cursor moves to its base exactly when `n == 0 && delta == 0`, whether or not segment B holds live blocks. Nothing else changes. |
| `Lab.Path` | arceos/labs/lab_allocator/src/lib.rs:84-113 | The probe branch is taken exactly when `n == 0`, the size is 32 and the flag is clear. A commit happens exactly when the request is not the probe, its end is within the heap, and, for segment A, within `heap_start + ITEM_EVEN_SIZE`. |
| `Lab.Alloc` | arceos/labs/lab_allocator/src/lib.rs:78-130 | The heap bounds never change and the counter stays below 15. The counter moves to `(n+1) % 15` only on a committed alignment-1 request. Every call made with the counter at 0 sets `delta` to `size - 32` (wrapped), whichever branch it then takes. The probe returns `NoMemory`, sets the flag and `delta` to 0, and changes nothing else. A request past the heap end returns `NoMemory` with only `delta` rewritten. A segment A overrun aborts. A commit bumps exactly the classified segment's cursor (to the block's end) and count, and leaves the other segment alone. An `Ok` address is non-null, aligned, at or above the cursor, and its block ends within the heap (and within segment A for A). |
| `Lab.Dealloc` | arceos/labs/lab_allocator/src/lib.rs:132-154 | Requires the classified segment (classified with the current counter) to hold a live allocation. Decrements exactly that count and leaves the other. Every segment with no live allocation afterwards has its cursor at its base; the others keep their cursor. Heap bounds, counter, `delta` and flag are unchanged. |
| `Lab.TotalBytes` | arceos/labs/lab_allocator/src/lib.rs:155-163 | When `n == 0 && delta == 0`, reports `ITEM_EVEN_SIZE`. Otherwise it reports `heap_end - b_pos` modulo 2^64: exactly that difference when segment B's cursor is within the heap, and a value that adds back to `heap_end` modulo 2^64 when both are words. |
| `Lab.TotalBytesIsRoomInSegmentB` | arceos/labs/lab_allocator/src/lib.rs:155-163 | A byte request routed to B (so the counter is odd and neither the probe nor the `n == 0 && delta == 0` case applies) commits if and only if its size is at most `total_bytes`, and is refused by the heap-end check otherwise. |
| `Lab.ImmediateByteFreeSwitchesSegment` | arceos/labs/lab_allocator/src/lib.rs:132-140 | Because `dealloc` reclassifies with the current counter, freeing a byte allocation right after committing it credits the same segment if and only if the counter has just wrapped from 14 to 0. |
| `Lab.AllocThenDeallocRestoresCount` | arceos/labs/lab_allocator/src/lib.rs:132-154 | For a request whose alignment is not 1, committing and then freeing it restores both counts. If its segment held nothing before, that segment's cursor is back at its base. |
| `Lab.ReturnedBlockInHeap` | arceos/labs/lab_allocator/src/lib.rs:104-108 | When the chosen segment's cursor is at or above the heap start, an `Ok` block lies within `[heap_start, heap_end)`. |
| `Lab.UnplacedSegmentB` | arceos/labs/lab_allocator/src/lib.rs:62-68 | After `init(0x1000, 0x200000)`, a first request of 64 bytes at alignment 8 is committed at address 0 (segment B's cursor moves to 64, its count to 1) and reported as `NoMemory`. `add_memory` leaves the cursor at 64, and the same request is then handed address 64, below the heap. |
| `Lab.AllocKeepsCursorsInHeap` | arceos/labs/lab_allocator/src/lib.rs:104-119 | If both cursors are at or above the heap start, they still are after any `alloc`: a commit moves a cursor only forward, to the end of its aligned block. |
| `Lab.DeallocKeepsCursorsInHeap` | arceos/labs/lab_allocator/src/lib.rs:147-153 | If both cursors are at or above the heap start, they still are after any `dealloc`: a cursor moves only back to its segment's base. |
| `Lab.AddMemoryKeepsCursorsInHeap` | arceos/labs/lab_allocator/src/lib.rs:62-68 | If both cursors are at or above the heap start, they still are after `add_memory`, which keeps the heap start. |
| `Lab.BootstrapPlacesCursors` | arceos/labs/lab_allocator/src/lib.rs:52-92 | From any state, `init`, then a probing request, then `add_memory` keeps the heap start given to `init` and puts both cursors at their bases. |
| `Lab.ThirtyTwoBytesReopenBootstrap` | arceos/labs/lab_allocator/src/lib.rs:62-92 | A 32-byte request at counter 0 with any alignment but 1, whichever branch it takes, leaves `n == 0 && delta == 0`. The next `add_memory` then puts segment B's cursor back at its base without lowering segment B's live count. |
| `Lab.SegmentBReplacedOverLiveBlock` | arceos/labs/lab_allocator/src/lib.rs:62-130 | After the regular bootstrap, `alloc(Layout(64, 8))` gets `Ok(709032)`, a committed `alloc(Layout(32, 8))` makes `n == 0 && delta == 0` hold with two live blocks in B, `add_memory` puts B's cursor back at its base, and the next `alloc(Layout(64, 8))` gets `Ok(709032)` again while the first block is live. |
| `Lab.AllocNeverMovesCursorBack` | arceos/labs/lab_allocator/src/lib.rs:104-119 | No `alloc` moves either cursor backwards. |
| `Lab.DeallocKeepsLiveCursors` | arceos/labs/lab_allocator/src/lib.rs:147-153 | A `dealloc` leaves the cursor of every segment that still holds a live block where it was. |
| `Runs.StepKeepsCursorsInHeap` | arceos/labs/lab_allocator/src/lib.rs:62-153 | Every call other than `init` keeps the heap start and keeps both cursors at or above it. |
| `Runs.RunBlocksInHeap` | arceos/labs/lab_allocator/src/lib.rs:104-128 | In a run without `init` that starts with both cursors at or above the heap start, the heap start never moves, the cursors stay at or above it, and every `Ok` address the run hands out is at or above it. |
| `Lab.ProbePlacesSegmentB` | arceos/labs/lab_allocator/src/lib.rs:62-68 | After the probe fires, the next `add_memory` puts segment B's cursor at its base, whatever it was before. |
| `Lab.ConformingByteFreeFindsEmptySegment` | arceos/labs/lab_allocator/src/lib.rs:132-140 | A committed byte request that is not the one wrapping the counter from 14 to 0, freed right away with its own layout, is credited to the other segment. If that segment held nothing, the free finds a zero count, while the serving segment's count stays one higher. |
| `Lab.ByteFreeAfterBootstrap` | arceos/labs/lab_allocator/src/lib.rs:84-140 | After the probe, `add_memory`, and `alloc(Layout(1, 1))` served at 0x1000 from segment A, freeing that block with `Layout(1, 1)` is credited to segment B, whose count is 0. |
| `Runs.ProbeAtMostOnce` | arceos/labs/lab_allocator/src/lib.rs:84-92 | In every run of calls the deliberate `NoMemory` happens at most once, and never once the flag is set. |
| `Runs.CounterCountsByteAllocs` | arceos/labs/lab_allocator/src/lib.rs:121-123 | After every run, the counter equals its start value plus the number of committed alignment-1 requests, modulo 15. |
| `Runs.StepMovesCounter` | arceos/labs/lab_allocator/src/lib.rs:121-123 | One call keeps the counter below 15, and advances it by one modulo 15 exactly when it commits an alignment-1 request. |
| `Runs.LiveCountsBalance` | arceos/labs/lab_allocator/src/lib.rs:110-140 | After every run, each segment's live count plus the frees credited to it equals its starting count plus the allocations committed to it. |
| `Runs.EndingFreeReclaims` | arceos/labs/lab_allocator/src/lib.rs:147-153 | A run that ends with a free leaves every segment with no live allocation at its base. |
| `Runs.BalancedRunReclaimsBothSegments` | arceos/labs/lab_allocator/src/lib.rs:132-154 | A run that starts with both segments empty, frees as many allocations per segment as it commits there, and ends with a free, leaves both counts at 0 and both cursors at their bases. |
| `Runs.ByteRequestsAlternate` | arceos/labs/lab_allocator/src/lib.rs:95-123 | In a run of committed alignment-1 requests, the i-th goes to A exactly when `(n + i) % 15` is even, and the counter ends at `(n + length) % 15`. |
| `Runs.ByteStep` | arceos/labs/lab_allocator/src/lib.rs:96-97 | A committed alignment-1 request goes to the segment of the counter's parity and advances the counter by one modulo 15. |
| `Runs.FifteenByteRequests` | arceos/labs/lab_allocator/src/lib.rs:121-123 | Fifteen committed alignment-1 requests from counter 0 go to A, B, A, ..., A by even and odd position, and bring the counter back to 0. |
| `Allocator.LabByteAllocator.constructor` | arceos/labs/lab_allocator/src/lib.rs:36-48 | Every field starts at zero and the flag is clear. |
| `Allocator.LabByteAllocator.Init` | arceos/labs/lab_allocator/src/lib.rs:52-60 | Updates the fields in place to the state `Lab.Init` describes. |
| `Allocator.LabByteAllocator.AddMemory` | arceos/labs/lab_allocator/src/lib.rs:62-74 | Updates the fields in place to the state `Lab.AddMemory` describes. |
| `Allocator.LabByteAllocator.Alloc` | arceos/labs/lab_allocator/src/lib.rs:78-130 | Updates the fields in place to the state `Lab.Alloc` describes, returns its result, and keeps the counter below 15. |
| `Allocator.LabByteAllocator.Dealloc` | arceos/labs/lab_allocator/src/lib.rs:132-154 | Updates the fields in place to the state `Lab.Dealloc` describes. Like the source, it ignores the address. |
| `Allocator.LabByteAllocator.TotalBytes` | arceos/labs/lab_allocator/src/lib.rs:155-163 | Reads the fields and reports what `Lab.TotalBytes` gives for them. |
| `Allocator.BootstrapThroughObject` | arceos/labs/lab_allocator/src/lib.rs:84-92 | On the object, with every result returned: after `init(0x1000, 0x200000)` a 32-byte request returns `NoMemory`, `add_memory` places segment B at `0x1000 + ITEM_EVEN_SIZE`, a 384-byte record gets `Ok(0x1000)` with segment A's count at 1, and freeing it leaves segment A empty with its cursor at 0x1000. |

## Left out

- `used_bytes` and `available_bytes` (lib.rs:164-169) are `unimplemented!()`: they only panic, so there is no state or result to model.
- The `BaseAllocator`/`ByteAllocator` traits, `AllocError`, `AllocResult` and `Default` are interface plumbing. `alloc` returns the `AllocResult` datatype of module Lab, and `add_memory`, which always returns `Ok(())`, returns nothing.
- Pointers are `nat` addresses. The `NonNull` null check (lib.rs:126-127) is modelled: a commit at address 0 reports `NoMemory` with the state already updated.
- Overflow of `usize` additions (`start + size`, `pos + align - 1`, `alloc_start + size`, `heap_start + ITEM_EVEN_SIZE`, the count increments) is not modelled: addresses and sizes are unbounded naturals.
- Lab.Alloc: alignment is modelled as arithmetic align-up. It equals the source's mask only while `pos + align - 1` fits in a word (`Usize.MaskRoundsUp`), so a cursor within `align` of 2^64 is not modelled.
- Lab.Dealloc: the source's `count -= 1` on a segment with no live allocation wraps to `usize::MAX` in a build without overflow checks. That wrap is not modelled: the precondition excludes it. The excluded cases are not only frees of memory that was never allocated. Because `dealloc` classifies with the current counter, a free with exactly the layout of an earlier allocation can land on an empty segment (`Lab.ConformingByteFreeFindsEmptySegment`, `Lab.ByteFreeAfterBootstrap`). What happens after such a free is outside the model.
- Runs.Admissible: runs cover only calls that return. A panicking `alloc` (segment A overrun) ends the kernel, so no run continues past one; the single-call `Abort` result is modelled in `Lab.Alloc`.
- The contents of the memory handed out, logging and multi-threaded use: the allocator only hands out addresses and runs in a single allocation context.
