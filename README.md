# AlphaAlocator in Dafny

A model of the two versions of `AlphaAlocator`, a toy process-wide Rust allocator.
Each version hands out ranges of a fixed byte arena and keeps a fixed table of
`Slot { size, index }` records, where an entry of size 0 is empty:

- **First fit** (`src/main.rs`, modules `Slots`, `Locator`, `FirstFit`): a
  30000-byte arena, a 100-entry table, a `free` counter and a 400-entry request
  journal. `alloc` checks the request against `free`, then asks
  `find_free_offset` for a gap. That function copies the live entries into a
  scratch array, bubble-sorts them by offset, and tries three places in turn:
  before the first block, between neighbours, after the last block. `alloc`
  then records the block in the first empty entry, takes the bytes off `free`
  and returns `base + offset`. `dealloc` maps the address back to an offset,
  clears the first entry whose `index` equals that offset, and credits the
  caller's layout size to `free`.
- **Bump** (`alocator/src/main.rs`, module `Bump`): a 3072-byte arena handed out
  front to back by a `next_offset` cursor. The cursor is put back when the arena
  would overflow. When the table is full, both the cursor and `free` are put
  back and null is returned.

The arena's base address is an abstract number, `base`. The state of each
allocator is a Dafny class whose fields are the source's fields. The table and
the journal are arrays, updated in place by methods with loops, just as the
Rust code does.

What is proved:

- `find_free_offset` (`Locator.FindFreeOffset`) returns exactly `LowestFit`, the
  lowest offset where the request fits beside every live block. `LowestFit` is
  defined independently, by trying every offset from 0 upward. This holds for
  every table whose blocks lie inside the arena and do not overlap.
- The bubble sort leaves a permutation of the live blocks, ordered by offset.
- Both allocators keep their tables inside the arena and free of overlaps.
- The first-fit allocator keeps `free + bytes in use == 30000` across `alloc`.
  It keeps it across `dealloc` as long as the released entry held exactly the
  layout size.
- Every failure path leaves the table, the counters and the cursor as the
  source leaves them.
- In an allocation-only run whose requests total at most the arena, with no
  more requests than table entries, every request is granted inside the arena
  (`FirstFit.AllocationOnlyRun`). In the bump version, each request lands where
  the previous ones end (`Bump.AllocationOnlyRun`). For first fit this rests on
  the table staying packed: no block ends past the number of bytes in use.

Two behaviours of the source are modelled as written:

- **First fit, release at offset 0.** `dealloc` matches entries on `index`
  alone, and an emptied entry carries `index == 0`. A release of offset 0 can
  therefore hit an empty entry that sits before the entry that really records
  the block at offset 0. `FirstFit.ZeroOffsetReleaseMissesBlock` exhibits a
  reachable run of this kind:
  - the block at offset 0 stays recorded in entry 2;
  - `free` is credited anyway;
  - afterwards free bytes plus bytes in use exceed the arena by 10.
- **Bump release.** `dealloc` clears the entry at the array position equal to
  the offset, not the entry that recorded the block. It never credits `free`
  and never moves the cursor. `Bump.ReleaseClearsWrongEntry` shows the release
  of the second 8-byte block clearing entry 8 while entry 1 keeps the block.

Three 10-byte blocks at 0, 20 and 40 in a 100-byte arena: a 15-byte request
fits neither 10-byte gap and goes to offset 50, after the last block
(`Locator.FragmentedArenaFit`).

## Model

| member | source | states |
|---|---|---|
| Slots.FirstEmpty | src/main.rs:152 | the position of the first entry with size 0: every entry before it is live, and it is the table length only when no entry is empty |
| Slots.FindEmpty | src/main.rs:152 | the `find(\|s\| s.size == 0)` scan over the table array returns exactly `FirstEmpty` of its contents |
| Slots.AsU32 | src/main.rs:41 | `size as u32` keeps a value below 2^32 and leaves smaller values unchanged |
| Slots.FirstUnused | src/main.rs:39-43 | the position of the first `None` journal entry: every entry before it is used |
| Slots.Recorded | src/main.rs:37-45 | the journal after one request: the first unused entry receives the value, every other entry is kept, and the journal is unchanged exactly when it was full |
| Slots.TotalPrefix | src/main.rs:169 | the sizes requested so far never total more than the whole run of requests |
| Locator.Live | src/main.rs:84-89 | the collected blocks are exactly the table's entries with size greater than 0, and there are no more of them than entries |
| Locator.FirstFitFrom | src/main.rs:104-144 | reference definition: the first offset from `from` upward where the request fits inside the arena beside every live block, with no fitting offset skipped; `None` means none fits |
| Locator.LowestFit | src/main.rs:75-145 | the lowest offset of the arena where the request fits beside every live block; `None` exactly when no offset fits |
| Locator.LowestFitIsCandidate | src/main.rs:113-141 | the lowest fit is one of the offsets the gap scan tries: 0 or the end of a live block |
| Locator.EmptyTableFit | src/main.rs:105-111 | with no live block the answer is offset 0 when the request fits in the arena, and `None` otherwise |
| Locator.ReuseReleasedOffset | src/main.rs:113-119 | blocks [0, 40) and [40, 80) allocated, the first released: a 30-byte request goes to offset 0 |
| Locator.FragmentedArenaFit | src/main.rs:122-141 | 10-byte blocks at 0, 20 and 40 in a 100-byte arena: a 15-byte request fits neither 10-byte gap and goes to 50 |
| Locator.Swap | src/main.rs:96-100 | the exchange of two scratch entries swaps them, leaves the others alone and keeps the multiset |
| Locator.BubblePass | src/main.rs:95-101 | one inner pass moves the largest offset of the unsorted prefix to its last position and keeps the multiset, the sorted suffix and the entries past the count |
| Locator.SortByIndex | src/main.rs:94-102 | the bubble sort leaves the first `used_count` entries ordered by offset and a permutation of what they were, and the rest untouched |
| Locator.LiveOnce | src/main.rs:84-89 | when the table's blocks do not overlap, each block occurs at most once among the collected blocks |
| Locator.SnapshotSeparate | src/main.rs:81-102 | a permutation of the collected blocks of a non-overlapping table is pairwise non-overlapping |
| Locator.SortedSeparateOrdered | src/main.rs:94-102 | sorted by offset and pairwise non-overlapping, each block ends before the next begins |
| Locator.CollectLive | src/main.rs:81-89 | the copy loop leaves exactly the live entries, in table order, at the front of a fresh scratch array |
| Locator.GapClear | src/main.rs:113-141 | a request placed after one sorted block and before the next overlaps no block |
| Locator.ScanGaps | src/main.rs:104-144 | the three-step gap scan over the sorted blocks returns the lowest fitting offset, or `None` when no offset fits |
| Locator.FindFreeOffset | src/main.rs:75-145 | `find_free_offset` returns the lowest fitting offset of the table's live blocks, and `None` only when no offset fits |
| FirstFit.IdentifyAddress | src/main.rs:59-71 | `Some(ptr - base)` exactly when `base <= ptr < base + 30000`, and `None` otherwise |
| FirstFit.FirstWithIndex | src/main.rs:202 | the position of the first entry whose `index` is the offset; every earlier entry carries another offset |
| FirstFit.FindIndex | src/main.rs:202 | the `find(\|s\| s.index == offset)` scan returns exactly `FirstWithIndex` of the table |
| FirstFit.UsedUpdate | src/main.rs:204-207 | overwriting one entry changes the bytes in use by the new size minus the old size |
| FirstFit.UsedNone | src/main.rs:30-31 | a table of empty entries holds no bytes |
| FirstFit.RegisterKeepsInvariant | src/main.rs:149-159 | recording a fitting block in an empty entry keeps blocks in bounds, non-overlapping and empty entries at offset 0 |
| FirstFit.ClearKeepsInvariant | src/main.rs:202-205 | zeroing an entry keeps the table invariant |
| FirstFit.PackedFit | src/main.rs:135-141 | when no block ends past the bytes in use and the request fits in the rest of the arena, a lowest fit exists, at or below the bytes in use |
| FirstFit.RegisterKeepsPacked | src/main.rs:149-159 | recording a block that starts at or below the bytes in use, in an empty entry, keeps every block ending at or below the new bytes in use |
| FirstFit.GrantKeeps | src/main.rs:175-183 | a block placed at the lowest fit in the first empty entry lies inside the arena, keeps the table invariant, adds its size to the bytes in use, and keeps a packed table packed |
| FirstFit.AlphaAllocator.constructor | src/main.rs:26-34 | the whole arena is free, the table and journal are empty, no call counted, the free counter agrees with the table, and the table is packed |
| FirstFit.AlphaAllocator.RegHistoric | src/main.rs:37-45 | the journal becomes `Recorded` of the old journal and the truncated size: only the first unused entry changes, and a full journal is left as it is |
| FirstFit.AlphaAllocator.RegisterSlot | src/main.rs:149-159 | the block is written into the first empty entry and nothing else changes; with no empty entry the answer is false and the table is unchanged |
| FirstFit.AlphaAllocator.Alloc | src/main.rs:163-194 | journal and call count always updated; one iff per failure (too few free bytes, no gap, table full), each leaving table and free counter as they were; on success the address is `base +` the lowest fit, the block is in the first empty entry, free drops by the size; the free-counter balance is kept, and so is a packed table |
| FirstFit.AlphaAllocator.Dealloc | src/main.rs:196-215 | an address outside the arena or an offset no entry carries changes nothing; otherwise the first entry carrying the offset is zeroed and the layout size is credited; at a non-zero offset that entry was a live block; the balance is kept when its size equals the layout size |
| FirstFit.PackedGrant | src/main.rs:163-194 | on a packed, balanced table with enough free bytes and an empty entry, a request is granted inside the arena and the table stays packed and balanced |
| FirstFit.AllocationOnlyRun | src/main.rs:163-194 | requests on a fresh allocator that total at most 30000 bytes, at most 100 of them, are all granted, each inside the arena |
| FirstFit.TwoBlocks | src/main.rs:163-194 | two 10-byte requests on a fresh allocator land at 0 and 10, in entries 0 and 1 |
| FirstFit.OpenHole | src/main.rs:196-215 | releasing the block at 0 empties entry 0 and restores the free counter |
| FirstFit.Fragment | src/main.rs:113-141 | a 20-byte request skips the 10-byte hole and goes to 20 in entry 0; the next 10-byte request fills the hole and is recorded in entry 2 |
| FirstFit.ZeroOffsetReleaseMissesBlock | src/main.rs:202-207 | releasing offset 0 after entry 0 was emptied again hits that empty entry: the block at 0 stays in entry 2, and free plus bytes in use exceed the arena by 10 |
| Bump.IdentifyAddress | alocator/src/main.rs:37-45 | for `ptr >= base`, `Some(ptr - base)` exactly when `ptr - base < size` |
| Bump.PushKeepsLayout | alocator/src/main.rs:78-87 | recording the block at the cursor in an empty entry keeps every block below the advanced cursor and no two overlapping |
| Bump.ClearKeepsLayout | alocator/src/main.rs:95-101 | zeroing any entry keeps the blocks below the cursor and apart |
| Bump.AlphaAllocator.constructor | alocator/src/main.rs:105-112 | cursor 0, the whole arena free, empty table and journal, and free plus cursor equal to the arena |
| Bump.AlphaAllocator.AlocateSlot | alocator/src/main.rs:26-35 | the block goes into the first empty entry and that entry is returned; with none empty the answer is `None` and the table is unchanged |
| Bump.AlphaAllocator.RegHistoric | alocator/src/main.rs:57-65 | among the first `size` journal entries only the first unused one receives the truncated request; the rest of the journal is untouched |
| Bump.AlphaAllocator.Alloc | alocator/src/main.rs:70-93 | out of memory iff the request exceeds `free` or runs past the arena; null iff it passes those checks but the table is full; neither changes cursor, free counter or table; on success the address is `base +` the old cursor, the cursor advances and free drops by the size, the block is recorded in the first empty entry, and free plus cursor stays equal to the arena |
| Bump.AlphaAllocator.Dealloc | alocator/src/main.rs:95-101 | past the arena it panics and changes nothing; otherwise it zeroes the entry at the array position equal to the offset, and never changes the free counter or the cursor |
| Bump.AllocTwice | alocator/src/main.rs:78-87 | two successive granted requests get adjacent ranges, the first at the old cursor, both inside the arena |
| Bump.CursorGrant | alocator/src/main.rs:74-87 | a request within the free counter, with an empty table entry, is granted at the cursor, which advances by its size, with free plus cursor still equal to the arena |
| Bump.AllocationOnlyRun | alocator/src/main.rs:70-93 | requests on a fresh allocator that total at most 3072 bytes, at most 3072 of them, are all granted, each at `base +` the total of the requests before it |
| Bump.ReleaseClearsWrongEntry | alocator/src/main.rs:95-101 | after two 8-byte requests at 0 and 8, releasing the second clears entry 8; entry 1 still records the block and the free counter is not credited |

## Left out

- The `GlobalAlloc`/`Layout` plumbing and the two `#[global_allocator]` statics. `alloc` takes the request size, and `dealloc` the address and the layout size. The static initialisers match the constructors.
- Raw `*mut u8` addresses: an address is a natural number, and the arena starts at an abstract `base`. Arena bytes are never read or written, so they are not modelled. Alignment is never consulted.
- `Mutex` and the atomics: every operation runs to completion on its own, as in a single-threaded program. Memory orderings play no part.
- `panic!` and `eprintln!` become failure outcomes (`OutOfMemory`, `Panicked`, `UnknownAddress`, `NoMatchingBlock`). The effects that happen before a panic (journal, call count) are kept.
- `print_historic`, every `println!`/`eprintln!` message, and both `main` functions: they are output only.
- Machine integers: counters, offsets and sizes are unbounded naturals. A `usize` overflow or wrap-around is not modelled. The journal's `size as u32` is modelled (`Slots.AsU32`).
- FirstFit.AlphaAllocator.Dealloc: `free` is a natural number. Crediting a layout size larger than the cleared entry, as in the offset-0 release, lets `free` pass the arena size. The wrap-around of the `usize` atomic at 2^64 is not modelled.
- Locator.FindFreeOffset: proved for tables whose blocks lie in the arena and do not overlap. This is the table invariant that `Alloc` and `Dealloc` keep in every reachable state. The source's `usize` subtractions would underflow on a table that breaks it, and that case is not modelled.
- Locator.ScanGaps: requires its blocks ordered and non-overlapping. `FindFreeOffset` establishes this from the sorted snapshot before the call.
- Locator.CollectLive: the scratch array has the table's length, not the source's 30000 entries. Only the first `used_count` entries are ever read.
- Bump.IdentifyAddress: requires `ptr >= base`. The source's `ptr as usize - base` underflows below the arena (a panic in debug builds, a wrapped offset in release builds). Bump.AlphaAllocator.Dealloc carries the same precondition.
- The first-fit `Alloc` model calls `FindFreeOffset` on the table. The source's `find_free_offset` takes and releases the table lock separately from `register_slot`, which matters only under concurrency.
