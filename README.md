# noglib in Dafny: the buddy allocator and the SHA hashers

This project models two independent parts of the `noglib` Rust workspace and
proves properties of them.

**The buddy allocator** (`buddy_allocator`). It keeps one sentinel free list
per order. Free blocks of order `i` are `MIN_BLOCK_SIZE << i` bytes, with
`MIN_BLOCK_SIZE = 16` (two 8-byte pointers) and `BASE_ORDER = 4`. Each free
block carries a `BlockHeader` of `prev`/`next` pointers that links it into
its list.

- *Headers.* Header memory is an arena, a map from `Ref = Head(order) | Blk(addr)` to headers. The pointer operations `push`, `pop_next`, `pop`, `is_tail`, `iter_mut` and `Iter::next` are methods on that arena (module `Header`). Each rewrites the same fields as the source, step by step. Lemmas give each method its meaning on a list seen as a sequence of addresses.
- *Allocator.* The class `BuddyAllocator.Allocator` holds two ghost fields: the address sequence of every list (`lists`) and the blocks handed out and not yet returned (`held`). Its methods are proved against list-level functions of modules `BuddySpec` and `Tiling`.
- *Invariant.* Every method keeps the invariant `Valid()`:
  - the arena holds exactly `lists`;
  - no block is recorded twice;
  - every block is aligned to its own size;
  - no two owned blocks overlap;
  - the free bytes plus the held bytes equal `total_size`.

**The SHA hashers** (`cryptography` and the `BlockBuffer` of `src/utils`).

- `BlockBuffer::process_data` is modelled as a method on a class with a byte array. It is proved to preserve the byte stream, and its block counts are proved.
- `split_blocks` is modelled as a pure function.
- Each of the three hash cores (SHA-1, the SHA-224/256 core and the SHA-384/512 core) is a class with a state array, a `BlockBuffer` and a byte counter:
  - `sha*_core_digest_block` is a method whose loops carry invariants, proved equal to the compression function of FIPS 180-4;
  - `compress` keeps the state equal to the fold of that function over the complete blocks seen so far;
  - `finalize` is proved to return the FIPS 180-4 hash of everything compressed, padding and all.
- `Hasher` wraps a core. It truncates the digest to `DIGEST_SIZE_BIT >> 3` bytes, and its `digest_into` variants report an output slice that is too short.

The SHA-384/512 core (`core512.rs`) is modelled as written. It is not compiled in the repository, and its blocks are 64 bytes, not the 128 bytes of section 6.4 of FIPS 180-4. So it loads only eight message words, and the other eight start at zero. Its `Hash` is therefore this repository's function, not SHA-512.

Where the source would panic, the model has a precondition:

- `Allocator.Allocate` requires the layout's order to be below `ORDERS`. Otherwise `self.free_list[index]` is out of bounds (lib.rs:124).
- `Allocator.Deallocate` requires that coalescing stops below `ORDERS`. `Coalesce` models the loop as written: a merge at the top order leaves `index == ORDERS`, and line 159 would index out of bounds there.
- `Allocator.AddMemory` requires a non-null pool address. This holds at every call, because the pointer of a Rust slice is never null. At address 0 the aligned start stays 0, and `!start + 1` overflows (lib.rs:77), which panics in a debug build. In a release build it wraps to 0, so `size` is 0 and `order` is `0usize.trailing_zeros() - BASE_ORDER`, which is 60 (lib.rs:79). Then `free_list[60]` is out of bounds when `ORDERS` is at most 60 (lib.rs:81). Otherwise `start += 0` never advances (lib.rs:83), and the loop pushes address 0 forever.
- The cores' `Compress` require the byte counter not to overflow, since `msg_len += …` panics in a debug build.

Deallocating a block that was never allocated, or with another layout, is a caller error. `held` turns it into a precondition.

## Model

| member | source | states |
|---|---|---|
| BuddySpec.BlockSize | buddy_allocator/src/lib.rs:13-16 | a block of order `i` has `MIN_BLOCK_SIZE << i = 2^(i+4)` bytes, at least 16 |
| BuddySpec.MaxBlockSize | buddy_allocator/src/lib.rs:41 | `MAX_BLOCK_SIZE` is the size of a block of the top order `ORDERS - 1` |
| BuddyAllocator.BlockSizeFor | buddy_allocator/src/lib.rs:105-107 | the block size of a layout is a power of two, at least 16, the size and the alignment, and the least power of two with those bounds |
| BuddyAllocator.OrderFor | buddy_allocator/src/lib.rs:108 | the order computed from the block size's trailing zeros is the order whose blocks have that size |
| BuddyAllocator.Allocator.constructor | buddy_allocator/src/lib.rs:49-55 | a new allocator has `ORDERS` empty free lists, no held blocks, a total of 0, and satisfies the invariant |
| BuddyAllocator.Allocator.GetMaxBlockSize | buddy_allocator/src/lib.rs:44-46 | returns `MAX_BLOCK_SIZE`, the size of a top-order block |
| BuddyAllocator.Allocator.AddMemory | buddy_allocator/src/lib.rs:65-88 | the result is the length of the span between the pool start rounded up and the pool end rounded down to 16, or 0 when that span holds no minimal block; `total_size` grows by the result; the lists become `AddMemorySpec` of the old ones; the invariant holds |
| BuddyAllocator.Allocator.CarveSize | buddy_allocator/src/lib.rs:76-79 | the min-of-three size formula gives the block the greedy tiling places at `start`, and its trailing zeros are that block's order plus `BASE_ORDER` |
| Tiling.AlignUp | buddy_allocator/src/lib.rs:70 | rounds up to the next multiple of 16, by less than 16 |
| Tiling.AlignDown | buddy_allocator/src/lib.rs:71 | rounds down to a multiple of 16, by less than 16 |
| Tiling.CarveSizeFits | buddy_allocator/src/lib.rs:76-79 | the minimum of `MAX_BLOCK_SIZE`, the lowest set bit of `start` and the largest power of two not above `end - start` is the size of the largest existing order aligned at `start` that fits before `end` |
| Tiling.TileOrder | buddy_allocator/src/lib.rs:79 | the order `add_memory` pushes a block to is one of the `ORDERS` lists |
| Tiling.TileSizeBounds | buddy_allocator/src/lib.rs:76-78 | the three bounds of the formula are powers of two of at least 16, and the third is the largest power of two not above the remaining length |
| Tiling.TileFits | buddy_allocator/src/lib.rs:74-84 | each block `add_memory` pushes starts at a multiple of its size, lies before `end`, is between 16 bytes and `MAX_BLOCK_SIZE`, and ends on a multiple of 16 |
| Tiling.FitOrderIs | buddy_allocator/src/lib.rs:76-79 | the order chosen is the one that is aligned and fits while the next larger one is missing, misaligned or too long |
| Tiling.TilesCover | buddy_allocator/src/lib.rs:74-84 | the pushed blocks lie back to back from the aligned start to the aligned end and sum to its length; an empty or inverted span gets none |
| Tiling.TilesPlaced | buddy_allocator/src/lib.rs:74-84 | every pushed block is well placed, of an existing order, and inside the span |
| Tiling.AddTilesPushesTiles | buddy_allocator/src/lib.rs:74-84 | the loop pushes exactly the tiles of the span, in order, each onto the list of its order |
| Tiling.AddTilesStep | buddy_allocator/src/lib.rs:74-84 | one loop turn pushes the block placed at `start` and carries on after it |
| BuddyAllocator.WalkInv | buddy_allocator/src/lib.rs:74-84 | every state the loop reaches keeps the invariant and leaves the rest of the span unowned |
| BuddyAllocator.WalkBytes | buddy_allocator/src/lib.rs:82-86 | the free bytes grow by exactly what the loop has advanced over, which `added` counts |
| BuddyAllocator.LoadDone | buddy_allocator/src/lib.rs:74-88 | when the loop stops, the invariant holds, the lists are `AddTiles` of the old ones, and the gain is the span length or 0 |
| BuddyAllocator.AddTileStep | buddy_allocator/src/lib.rs:81 | pushing the block placed at `start` keeps the invariant and leaves the rest of the span unowned |
| BuddySpec.Push | buddy_allocator/src/lib.rs:81 | pushing onto list `i` puts the address first on list `i` and leaves every other list as it was |
| BuddySpec.RemoveAtNoDup | buddy_allocator/src/header.rs:57-67 | unlinking the `k`-th entry of a list without repeats leaves exactly the other entries, still without repeats |
| BuddyAllocator.FreeBytesEmpty | buddy_allocator/src/lib.rs:49-55 | a new allocator's empty lists hold no free bytes, matching its `total_size` of 0 |
| BuddyAllocator.Allocator.PushFree | buddy_allocator/src/lib.rs:81 | `free_list[i].push(a)` makes `a` the first address of list `i` and changes no other list |
| BuddyAllocator.Allocator.PopNextFree | buddy_allocator/src/lib.rs:124-126 | `free_list[i].pop_next()` returns the first address of list `i` and removes it, or returns `None` and changes nothing when the list is empty |
| BuddyAllocator.Allocator.PopFree | buddy_allocator/src/lib.rs:146 | `pop` on the `k`-th block of list `i` removes exactly that address |
| BuddyAllocator.Allocator.SplitBlock | buddy_allocator/src/lib.rs:92-101 | the lists become `Split(old lists, index)`, that is, the first block of order `index` replaced by its two halves on list `index - 1`, lower half first; the invariant and `total_size` are kept |
| BuddySpec.SplitEffect | buddy_allocator/src/lib.rs:93-99 | a split removes the head of list `j` and puts its lower half, then its upper half, at the front of list `j - 1`; the halves are each other's buddies |
| BuddySpec.SplitInv | buddy_allocator/src/lib.rs:92-101 | a split keeps the invariant and the number of free bytes; an empty list is left alone |
| BuddySpec.FirstNonEmpty | buddy_allocator/src/lib.rs:110-114 | the search finds the first order at or above `from` whose list is not empty, and every order it skips is empty |
| BuddySpec.SplitDownInv | buddy_allocator/src/lib.rs:117-119 | the splits from order `i` down to `index + 1` keep the invariant and the free bytes |
| BuddySpec.SplitDownCarves | buddy_allocator/src/lib.rs:117-119 | splitting down from the block found leaves each upper half first on its own order and the block's start first on list `index` |
| BuddyAllocator.Allocator.SplitForOrder | buddy_allocator/src/lib.rs:110-122 | the search loop leaves the lists as `SplitFor` says and keeps the invariant |
| BuddyAllocator.Allocator.Allocate | buddy_allocator/src/lib.rs:104-127 | the result and the new lists are those of `AllocateSpec`; a block handed out is recorded in `held`; the invariant and `total_size` are kept |
| BuddySpec.AllocateResult | buddy_allocator/src/lib.rs:104-127 | `allocate` returns `None` and changes nothing exactly when every list from the needed order up is empty; otherwise it returns the head of the first non-empty list at or above that order |
| BuddySpec.AllocateInv | buddy_allocator/src/lib.rs:104-127 | a returned address is a multiple of the block size; the invariant holds with the block held; the free bytes fall by exactly the block size |
| BuddyAllocator.AllocateKeeps | buddy_allocator/src/lib.rs:104-127 | `allocate` keeps free plus held bytes equal to `total_size` |
| Bits.SplitBuddy | buddy_allocator/src/lib.rs:94-96 | the halves of an aligned block, `block` and `block + 2^k`, are each other's XOR buddies |
| Bits.MergeBuddy | buddy_allocator/src/lib.rs:138-152 | a block and its XOR buddy are the two halves of the block twice as large that starts at the smaller address |
| BuddySpec.IndexOf | buddy_allocator/src/lib.rs:141-149 | the scan stops at the first occurrence of the buddy |
| BuddyAllocator.Allocator.RemoveBuddy | buddy_allocator/src/lib.rs:139-149 | the scan of list `i` past its sentinel reports exactly whether the buddy is on it, and then unlinks the buddy's first occurrence and nothing else |
| BuddySpec.Coalesce | buddy_allocator/src/lib.rs:137-157 | the coalescing loop as written ends at an order between the starting one and `ORDERS` |
| BuddySpec.MergeInv | buddy_allocator/src/lib.rs:151-153 | one merge takes the buddy off its list and continues with the lower address one order up, covering both blocks and keeping the invariant |
| BuddySpec.CoalesceInv | buddy_allocator/src/lib.rs:137-157 | coalescing keeps the invariant, ends with a block of at least the starting order that contains the freed block, and converts each removed buddy's bytes into the merged block; when it stops below `ORDERS`, the merged block's buddy is not free |
| BuddyAllocator.Allocator.CoalesceFree | buddy_allocator/src/lib.rs:136-157 | the loop leaves the lists, block and order that `Coalesce` gives |
| BuddyAllocator.Allocator.Deallocate | buddy_allocator/src/lib.rs:130-160 | the lists become `DeallocateSpec` of the old ones; the block leaves `held`; the invariant and `total_size` are kept |
| BuddySpec.DeallocateInv | buddy_allocator/src/lib.rs:130-160 | returning a held block keeps the invariant without it, and the free bytes grow by exactly its size |
| BuddyAllocator.DeallocateKeeps | buddy_allocator/src/lib.rs:130-160 | `deallocate` keeps free plus held bytes equal to `total_size` |
| BuddySpec.AllocateDeallocate | buddy_allocator/src/lib.rs:104-160 | returning a block right after allocating it restores the free lists, when the buddy of the block it was split from is not free |
| BuddySpec.BlockSizeTiles | buddy_allocator/src/lib.rs:13-16 | a block of order `k` is `2^k` blocks of `MIN_BLOCK_SIZE` bytes |
| BuddySpec.Pieces | buddy_allocator/src/lib.rs:224 | `chunks_exact(MIN_BLOCK_SIZE)` of a block yields its 16-byte pieces in ascending order |
| BuddySpec.AllocateAfterSplit | buddy_allocator/src/lib.rs:110-121 | with list `k` the first non-empty one, allocating order 0 gives the same address and lists as it gives after the first `split_block(k)` |
| BuddySpec.AllocateBlockRun | buddy_allocator/src/lib.rs:104-127 | with one free block of order `k` at `b` and every lower list empty, the `j`-th of `2^k` successive order-0 allocations returns `b + 16 * j`, and the block is then off its list with nothing else changed |
| BuddySpec.CoalesceHalves | buddy_allocator/src/lib.rs:137-159 | with the lists below order `k` empty, freeing the lower half of an aligned block only pushes it; freeing the upper half next merges with it and ends as freeing the whole block does |
| BuddySpec.FreePieces | buddy_allocator/src/lib.rs:130-160 | with the lists below order `k` empty, freeing the 16-byte pieces of an aligned block of order `k` in ascending order ends with the lists a single `deallocate` of the whole block gives |
| BuddyAllocator.OrdersOfTest | buddy_allocator/src/lib.rs:104-108 | a one-byte request has order 0, and a request of `MAX_BLOCK_SIZE` bytes has the top order |
| BuddyAllocator.AddMaxBlock | buddy_allocator/src/lib.rs:65-88 | `add_memory` of a pool of `MAX_BLOCK_SIZE` bytes aligned to its size adds it as the single block of the top order |
| BuddyAllocator.MaxBlockRoundTrip | buddy_allocator/src/lib.rs:206-242 | on a new allocator given one aligned top-order block, one-byte requests return its 16-byte pieces in ascending order; the next request fails; freeing the pieces in order restores the lists `add_memory` built; a `MAX_BLOCK_SIZE` request then returns the pool's start |
| BuddySpec.OwnedInside | buddy_allocator/src/lib.rs:92-160 | under the invariant, an owned block that starts inside another owned block is that block |
| BuddySpec.InvDistinct | buddy_allocator/src/lib.rs:81 | under the invariant, no address is on two free lists or twice on one |
| BuddySpec.FreeBytesPush | buddy_allocator/src/lib.rs:81-82 | pushing onto list `i` adds one block of order `i` to the free bytes |
| Bits.LowestSetBit | buddy_allocator/src/lib.rs:77 | `x & (!x + 1)` is the largest power of two dividing `x`, or 0 for 0 |
| Bits.NextPowerOfTwo | buddy_allocator/src/lib.rs:106 | `next_power_of_two` is the least power of two at least `n` |
| Bits.FloorPow2 | buddy_allocator/src/lib.rs:78 | `(x + 1).next_power_of_two() >> 1` is the largest power of two not above `x` |
| Header.New | buddy_allocator/src/header.rs:16-21 | a new header is detached: `prev` and `next` are null |
| Header.PushNodes | buddy_allocator/src/header.rs:27-35 | after `push`, `self.next` is `node`, `node.prev` is `self` (unless `node` was already next), and every other header except the old successor is unchanged |
| Header.PopNextNodes | buddy_allocator/src/header.rs:38-54 | `pop_next` on a tail changes nothing; otherwise the removed header is reset to detached and only `self` and the new successor change |
| Header.PopNodes | buddy_allocator/src/header.rs:57-67 | `pop` resets `self` to detached and changes only its two neighbours |
| Header.Arena.constructor | buddy_allocator/src/lib.rs:51 | the arena starts with one detached sentinel per order and nothing else |
| Header.Arena.Push | buddy_allocator/src/header.rs:27-35 | the pointer rewrites of `push` produce `PushNodes` |
| Header.Arena.PopNext | buddy_allocator/src/header.rs:38-54 | returns the old successor, or `None` at the tail, and the rewrites produce `PopNextNodes` |
| Header.Arena.Pop | buddy_allocator/src/header.rs:57-67 | returns its own address, and the rewrites produce `PopNodes` |
| Header.Arena.IterMut | buddy_allocator/src/header.rs:77-79 | the iterator starts at `self` |
| Header.Iter.constructor | buddy_allocator/src/header.rs:83-86 | an iterator holds its arena and its current header |
| Header.Iter.Next | buddy_allocator/src/header.rs:90-100 | yields the current header and steps to its `next`, or yields `None` at null and stays there |
| Header.ChainIsTail | buddy_allocator/src/header.rs:71-73 | `is_tail` holds of the last header of a list and of no other |
| Header.ChainPush | buddy_allocator/src/header.rs:27-35 | `push` on any header of a list inserts `node` directly after it and keeps every other header in order |
| Header.ChainPopNext | buddy_allocator/src/header.rs:38-54 | `pop_next` on a header that has a successor removes exactly that successor and detaches it |
| Header.ChainPop | buddy_allocator/src/header.rs:57-67 | `pop` on a header in the middle or at the end of a list removes exactly it, leaves the others in order, and detaches it |
| Header.ChainNext | buddy_allocator/src/header.rs:90-100 | following `next` from the `k`-th header reaches the `k+1`-th, or null after the last; so the iterator yields `self`, then each successor in order |
| Header.ListPush | buddy_allocator/src/header.rs:27-35 | `push` on a sentinel prepends the address to the list's sequence |
| Header.ListPopNext | buddy_allocator/src/header.rs:38-54 | `pop_next` on a sentinel returns the first address and removes it, or `None` on an empty list |
| Header.ListPop | buddy_allocator/src/header.rs:57-67 | `pop` on the `k`-th member removes just that address and leaves the others in order |
| Header.ListNext | buddy_allocator/src/header.rs:90-100 | after the sentinel, the iterator visits exactly the members in order, then null |
| FreeListArena.PushAll | buddy_allocator/src/lib.rs:81 | pushing onto sentinel `i` prepends to list `i` and leaves every other list as it was |
| FreeListArena.PopNextAll | buddy_allocator/src/lib.rs:124-125 | `pop_next` on sentinel `i` of a non-empty list drops its first address and leaves every other list as it was |
| FreeListArena.PopAll | buddy_allocator/src/lib.rs:146 | `pop` of the `k`-th block of list `i` removes just that address from list `i` and leaves every other list as it was |
| FreeListArena.IsTailAll | buddy_allocator/src/lib.rs:112 | the sentinel of list `i` is the tail exactly when the list is empty |
| FreeListArena.NextAll | buddy_allocator/src/lib.rs:141 | the scan of a list past its sentinel visits its addresses in order |
| Buffering.BlockBuffer.constructor | src/utils/types/block_buffer.rs:18-34 | a new buffer is all zeros with `pos == 0` |
| Buffering.BlockBuffer.GetRemain | src/utils/types/block_buffer.rs:37-39 | `pos + get_remain() == BLOCK_SIZE` |
| Buffering.BlockBuffer.ProcessData | src/utils/types/block_buffer.rs:54-84 | the processor calls, in order, and the new buffered bytes are those `ProcessOutcome` gives; `pos < BLOCK_SIZE` and the bytes after `pos` stay zero |
| Buffering.BlockBuffer.CopyIn | src/utils/types/block_buffer.rs:61-62 | short data land right after the buffered bytes, and `pos` advances by their length; nothing else changes |
| Buffering.BlockBuffer.FillBlock | src/utils/types/block_buffer.rs:68-69 | the buffered bytes are completed to a whole block by the front of the data |
| Buffering.BlockBuffer.Refill | src/utils/types/block_buffer.rs:81-83 | the tail goes to the front, the rest is zeroed, and `pos` is the tail's length |
| Buffering.ProcessOutcomeJoin | src/utils/types/block_buffer.rs:54-84 | the old buffered bytes followed by the data are all handed-over blocks, in call order, followed by the new buffered bytes; every call gets at least one block, every block is whole, and fewer than `BLOCK_SIZE` bytes stay buffered |
| Buffering.ProcessOutcomeCounts | src/utils/types/block_buffer.rs:60-83 | `(pos + len) / BLOCK_SIZE` blocks are handed over in total, and the new `pos` is `(pos + len) % BLOCK_SIZE` |
| Buffering.ProcessOutcomeDirect | src/utils/types/block_buffer.rs:67-79 | with an empty buffer, no buffered block is handed over: only the whole blocks of the data, in one call, or no call for short data |
| BlockUser.SplitBlocks | cryptography/src/utils/traits.rs:18-31 | the blocks are whole, the tail is shorter than a block, and blocks then tail are the data again |
| BlockUser.SplitBlocksCounts | cryptography/src/utils/traits.rs:19-20 | there are `len / BLOCK_SIZE` blocks and a tail of `len % BLOCK_SIZE` |
| BlockUser.SplitBoundaries | cryptography/src/utils/traits.rs:53-63 | an exact multiple leaves no tail; one byte less gives one block fewer and a tail of `BLOCK_SIZE - 1` |
| BlockUser.Chunk | cryptography/src/utils/traits.rs:24-27 | the block view of a multiple-of-size slice: whole blocks whose concatenation is the slice |
| BlockUser.ChunkFlatten | cryptography/src/utils/traits.rs:24-27 | viewing concatenated whole blocks as blocks gives them back |
| BitFunctions.Choose32 | cryptography/src/utils/macros.rs:4-8 | `choose` takes each bit from `y` where `x` is one and from `z` where `x` is zero (Ch of FIPS 180-4) |
| BitFunctions.Choose64 | cryptography/src/utils/macros.rs:4-8 | the same on 64-bit words |
| BitFunctions.Majority32 | cryptography/src/utils/macros.rs:12-16 | `majority` sets the bits where at least two arguments have a one (Maj of FIPS 180-4) |
| BitFunctions.Majority64 | cryptography/src/utils/macros.rs:12-16 | the same on 64-bit words |
| BitFunctions.MajoritySymmetric32 | cryptography/src/utils/macros.rs:14 | `majority` is unchanged by swapping its arguments, hence by any permutation |
| BitFunctions.MajoritySymmetric64 | cryptography/src/utils/macros.rs:14 | the same on 64-bit words |
| BitFunctions.ChooseMajoritySame32 | cryptography/src/utils/macros.rs:4-16 | `choose(x, y, y) == y` and `majority(x, x, z) == x` |
| BitFunctions.ChooseMajoritySame64 | cryptography/src/utils/macros.rs:4-16 | the same on 64-bit words |
| BigEndian.Bytes32 | cryptography/src/hash/sha1.rs:134 | `to_be_bytes` gives four bytes that `from_be_bytes` reads back as the word |
| BigEndian.Bytes32Word32 | cryptography/src/hash/sha1.rs:38 | writing back a word read from four bytes gives those bytes |
| BigEndian.Bytes64 | cryptography/src/hash/sha2/core512.rs:196 | the same for eight bytes and 64-bit words |
| BigEndian.Bytes64Word64 | cryptography/src/hash/sha2/core512.rs:67 | the same round trip for eight bytes |
| BigEndian.NatBytesValue | cryptography/src/hash/sha1.rs:129 | the big-endian length field reads back as the bit count modulo `256^k` |
| BigEndian.NatBytesMod | cryptography/src/hash/sha1.rs:117 | the length field depends only on the bit count modulo the integer width, so a wrapped shift writes the same bytes |
| BigEndian.WordsBytes32Words | cryptography/src/hash/sha1.rs:132-135 | the digest bytes read back as the state words, in order |
| BigEndian.WordsBytes64Words | cryptography/src/hash/sha2/core512.rs:194-197 | the same for 64-bit words |
| BigEndian.StoreWords32 | cryptography/src/hash/sha1.rs:132-137 | the digest loop writes each state word big-endian into its own chunk |
| BigEndian.StoreWords64 | cryptography/src/hash/sha2/core512.rs:194-199 | the same for 64-bit words |
| BigEndian.CopyChunk | cryptography/src/hash/sha1.rs:134 | `copy_from_slice` puts the bytes at the chunk and leaves the bytes before and after it alone |
| ShaCommon.MessageWords32 | cryptography/src/hash/sha1.rs:36-39 | a block gives sixteen big-endian words |
| ShaCommon.MessageWords64 | cryptography/src/hash/sha2/core512.rs:65-68 | a 64-byte block gives eight big-endian 64-bit words |
| ShaCommon.Pad | cryptography/src/hash/sha1.rs:111-130 | the padding of section 5.1 of FIPS 180-4: a multiple of 64 bytes holding the message, 0x80, zeros, and the bit length modulo the field width as its last bytes; at most one block longer than needed |
| ShaCommon.Whole | cryptography/src/hash/sha1.rs:102-109 | the complete blocks of a message are all but its last `len % 64` bytes |
| ShaCommon.FoldBlocksAppend | cryptography/src/hash/sha1.rs:104-108 | compressing two block-aligned pieces in turn is compressing their concatenation |
| ShaCommon.FoldNextBlock | cryptography/src/hash/sha1.rs:105-107 | one more iteration of the processor loop compresses the next block into the fold |
| ShaCommon.FoldNextCall | cryptography/src/hash/sha1.rs:104-108 | one more processor call continues the fold over its blocks |
| ShaCommon.AbsorbStep | cryptography/src/hash/sha1.rs:102-109 | after `compress`, the state is still the fold over the complete blocks of the longer message, and the rest is buffered |
| ShaCommon.TrailerPads | cryptography/src/hash/sha1.rs:121-130 | the complete blocks followed by the one or two blocks `finalize` builds are the padded message |
| ShaCommon.FinalFold | cryptography/src/hash/sha1.rs:121-130 | the state after `finalize`'s last compression is the fold over the whole padded message |
| ShaCommon.LengthField | cryptography/src/hash/sha1.rs:117 | `msg_len << 3` in the counter's width gives the length field the padding asks for |
| ShaCommon.TwoBlocks | cryptography/src/hash/sha1.rs:124-129 | when the length field does not fit after 0x80, the two blocks compressed make up the padding after the complete blocks |
| ShaCommon.FillZeros | cryptography/src/hash/sha1.rs:122 | `fill(0)` zeroes from the index on and keeps what is before |
| ShaCommon.PadBuffer | cryptography/src/hash/sha1.rs:121-122 | 0x80 after the pending bytes, then zeros |
| ShaCommon.PlaceLength | cryptography/src/hash/sha1.rs:129 | the length field fills the end of the block from `SUFFIX_POS` |
| Sha1.Kt | cryptography/src/hash/sha1.rs:18 | round `t` uses `K_CONSTANTS[t / 20]` |
| Sha1.Hash | cryptography/src/hash/sha1.rs:111-137 | the digest is 20 bytes, and its words are the fold of the compression function from the initial value of section 5.3.1 over the padded message |
| Sha1.LoadWords | cryptography/src/hash/sha1.rs:36-39 | the first sixteen schedule words are the block's big-endian words |
| Sha1.ExtendSchedule | cryptography/src/hash/sha1.rs:48-50 | `words[t]` becomes `ROTL1(W[t-3] ^ W[t-8] ^ W[t-14] ^ W[t-16])` for `t >= 16`, the schedule of section 6.1.2 |
| Sha1.RunRounds | cryptography/src/hash/sha1.rs:47-63 | the 80 rounds over the schedule the loop extends give the working variables that `Rounds` defines |
| Sha1.AddVars | cryptography/src/hash/sha1.rs:65-69 | each state word gains its working variable modulo 2^32 |
| Sha1.DigestBlock | cryptography/src/hash/sha1.rs:35-70 | `sha1_core_digest_block` turns the state into the compression of the block into it |
| Sha1.DigestTrailer | cryptography/src/hash/sha1.rs:121-130 | `finalize`'s compressions fold the padding after the pending bytes into the state, with one more block when `pos + 1 > 56` |
| Sha1.DigestOne | cryptography/src/hash/sha1.rs:129-130 | with room for the length field, one compression of the padded block |
| Sha1.DigestTwo | cryptography/src/hash/sha1.rs:124-130 | without room, the padded block and then a block of zeros ending in the length field |
| Sha1.DigestZeroLength | cryptography/src/hash/sha1.rs:126-130 | the zeroed block with the length field at its end, compressed |
| Sha1.DigestLength | cryptography/src/hash/sha1.rs:129-130 | the length field placed at `SUFFIX_POS`, then the block compressed |
| Sha1.Sha1Core.constructor | cryptography/src/hash/sha1.rs:94-100 | `new` ignores its argument and starts from the initial value with an empty buffer and count 0 |
| Sha1.Sha1Core.ProcessBlocks | cryptography/src/hash/sha1.rs:104-108 | the processor compresses every block it gets, in order |
| Sha1.Sha1Core.DigestNext | cryptography/src/hash/sha1.rs:105-107 | one iteration of the processor loop extends the fold by one block |
| Sha1.Sha1Core.ProcessCalls | cryptography/src/hash/sha1.rs:104-108 | the processor calls of one `process_data`, in order, fold all their blocks into the state |
| Sha1.Sha1Core.Absorb | cryptography/src/hash/sha1.rs:104-108 | buffered bytes plus data are the bytes compressed plus the new buffered bytes |
| Sha1.Sha1Core.Compress | cryptography/src/hash/sha1.rs:102-109 | `compress` appends the data to the message, keeps the count equal to its length, and keeps the state equal to the fold over its complete blocks |
| Sha1.Sha1Core.Finalize | cryptography/src/hash/sha1.rs:111-138 | `finalize` returns the SHA-1 hash of everything compressed so far |
| Sha256.InitialState | cryptography/src/hash/sha2/core256.rs:127-137 | `new` loads the SHA-224 initial value for 224, the SHA-256 one for 256, and zeros for any other size |
| Sha256.Hash | cryptography/src/hash/sha2/core256.rs:155-181 | the digest is all 32 bytes of the state, even for SHA-224, whose words are the fold from the initial value over the padded message |
| Sha256.LoadWords | cryptography/src/hash/sha2/core256.rs:57-60 | the first sixteen schedule words are the block's big-endian words |
| Sha256.ExtendSchedule | cryptography/src/hash/sha2/core256.rs:72-77 | `words[t]` becomes `W[t-7] + W[t-16] + σ1(W[t-2]) + σ0(W[t-15])` modulo 2^32 |
| Sha256.RoundsNext | cryptography/src/hash/sha2/core256.rs:79-92 | round `t` continues the rounds before it with `K[t]` and `W[t]` |
| Sha256.Round | cryptography/src/hash/sha2/core256.rs:79-92 | one pass of the loop shifts the working variables down, `e` and `a` taking `d + tmp1` and `tmp1 + tmp2` |
| Sha256.RunRounds | cryptography/src/hash/sha2/core256.rs:71-93 | the 64 rounds give the working variables that `Rounds` defines |
| Sha256.AddVars | cryptography/src/hash/sha2/core256.rs:95-102 | each state word gains its working variable modulo 2^32 |
| Sha256.DigestBlock | cryptography/src/hash/sha2/core256.rs:56-103 | `sha256_core_digest_block` turns the state into the compression of the block into it |
| Sha256.DigestTrailer | cryptography/src/hash/sha2/core256.rs:165-174 | `finalize`'s compressions fold the padding after the pending bytes into the state, with one more block when `pos + 1 > 56` |
| Sha256.DigestOne | cryptography/src/hash/sha2/core256.rs:173-174 | with room for the length field, one compression |
| Sha256.DigestTwo | cryptography/src/hash/sha2/core256.rs:168-174 | without room, the padded block and a block of zeros ending in the length field |
| Sha256.DigestZeroLength | cryptography/src/hash/sha2/core256.rs:170-174 | the zeroed block with the length field, compressed |
| Sha256.DigestLength | cryptography/src/hash/sha2/core256.rs:173-174 | the length field at `SUFFIX_POS`, then the block compressed |
| Sha256.Sha256Core.constructor | cryptography/src/hash/sha2/core256.rs:127-144 | the initial value of the requested size, an empty buffer and count 0 |
| Sha256.Sha256Core.ProcessBlocks | cryptography/src/hash/sha2/core256.rs:148-152 | the processor compresses every block it gets, in order |
| Sha256.Sha256Core.DigestNext | cryptography/src/hash/sha2/core256.rs:149-151 | one iteration of the processor loop extends the fold by one block |
| Sha256.Sha256Core.ProcessCalls | cryptography/src/hash/sha2/core256.rs:148-152 | all processor calls fold their blocks into the state in order |
| Sha256.Sha256Core.Absorb | cryptography/src/hash/sha2/core256.rs:148-152 | buffered bytes plus data are the bytes compressed plus the new buffered bytes |
| Sha256.Sha256Core.Compress | cryptography/src/hash/sha2/core256.rs:146-153 | appends the data to the message and keeps the state equal to the fold over its complete blocks |
| Sha256.Sha256Core.Finalize | cryptography/src/hash/sha2/core256.rs:155-182 | returns the hash, from the chosen initial value, of everything compressed |
| Sha512.InitialState | cryptography/src/hash/sha2/core512.rs:135-155 | `new` loads the SHA-512/224, SHA-512/256, SHA-384 or SHA-512 initial value for 224, 256, 384 or 512, and zeros otherwise |
| Sha512.ScheduleWords | cryptography/src/hash/sha2/core512.rs:65-68 | only the first eight schedule words come from the 64-byte block; the next eight are zero |
| Sha512.Hash | cryptography/src/hash/sha2/core512.rs:173-199 | the digest is 64 bytes whose words are the fold from the initial value over the message padded with a 16-byte length field |
| Sha512.LoadWords | cryptography/src/hash/sha2/core512.rs:65-68 | the first sixteen schedule words are `ScheduleWords` of the block |
| Sha512.ScheduleNext | cryptography/src/hash/sha2/core512.rs:80-85 | the sum the loop computes is `W[t]` |
| Sha512.ExtendSchedule | cryptography/src/hash/sha2/core512.rs:80-85 | `words[t]` becomes `W[t-7] + W[t-16] + σ1(W[t-2]) + σ0(W[t-15])` modulo 2^64 |
| Sha512.RoundsNext | cryptography/src/hash/sha2/core512.rs:87-100 | round `t` continues the rounds before it with `K[t]` and `W[t]` |
| Sha512.Round | cryptography/src/hash/sha2/core512.rs:87-100 | one pass of the loop shifts the working variables down, `e` and `a` taking the new sums |
| Sha512.RunRounds | cryptography/src/hash/sha2/core512.rs:79-101 | the 80 rounds give the working variables that `Rounds` defines |
| Sha512.AddVars | cryptography/src/hash/sha2/core512.rs:103-110 | each state word gains its working variable modulo 2^64 |
| Sha512.DigestBlock | cryptography/src/hash/sha2/core512.rs:64-111 | `sha512_core_digest_block` turns the state into the compression of the block into it |
| Sha512.DigestTrailer | cryptography/src/hash/sha2/core512.rs:183-192 | `finalize`'s compressions fold the padding into the state, with one more block when `pos + 1 > 48` |
| Sha512.DigestOne | cryptography/src/hash/sha2/core512.rs:191-192 | with room for the 16-byte length field, one compression |
| Sha512.DigestTwo | cryptography/src/hash/sha2/core512.rs:186-192 | without room, the padded block and a block of zeros ending in the length field |
| Sha512.DigestZeroLength | cryptography/src/hash/sha2/core512.rs:188-192 | the zeroed block with the length field, compressed |
| Sha512.DigestLength | cryptography/src/hash/sha2/core512.rs:191-192 | the length field at offset 48, then the block compressed |
| Sha512.Sha512Core.constructor | cryptography/src/hash/sha2/core512.rs:135-162 | the initial value of the requested size, an empty buffer and count 0 |
| Sha512.Sha512Core.ProcessBlocks | cryptography/src/hash/sha2/core512.rs:166-170 | the processor compresses every block it gets, in order |
| Sha512.Sha512Core.DigestNext | cryptography/src/hash/sha2/core512.rs:167-169 | one iteration of the processor loop extends the fold by one block |
| Sha512.Sha512Core.ProcessCalls | cryptography/src/hash/sha2/core512.rs:166-170 | all processor calls fold their blocks into the state in order |
| Sha512.Sha512Core.Absorb | cryptography/src/hash/sha2/core512.rs:166-170 | buffered bytes plus data are the bytes compressed plus the new buffered bytes |
| Sha512.Sha512Core.Compress | cryptography/src/hash/sha2/core512.rs:164-171 | appends the data to the message (a `u128` count) and keeps the state equal to the fold over its complete blocks |
| Sha512.Sha512Core.Finalize | cryptography/src/hash/sha2/core512.rs:173-200 | returns the hash, from the chosen initial value, of everything compressed |
| Hashing.DigestSize | cryptography/src/hash/hasher.rs:27-29 | `DIGEST_SIZE_BIT >> 3` is the number of whole bytes in the bit length |
| Hashing.FullDigest | cryptography/src/hash/hasher.rs:13 | the core's `finalize` gives `Core::DIGEST_SIZE` bytes: 20, 32 or 64 |
| Hashing.Truncated | cryptography/src/hash/hasher.rs:52-55 | the hasher's digest is the first `DIGEST_SIZE` bytes of the full digest |
| Hashing.NewEngine | cryptography/src/hash/hasher.rs:35-39 | `Core::new(DIGEST_SIZE_BIT)` builds a valid core with nothing compressed |
| Hashing.EngineCompress | cryptography/src/hash/hasher.rs:11 | `compress` appends the data to the core's message |
| Hashing.EngineFinalize | cryptography/src/hash/hasher.rs:13 | `finalize` returns the full digest of the core's message |
| Hashing.EngineSnapshotOfMessage | cryptography/src/hash/hasher.rs:44-50 | a valid core's state words, buffer and count are determined by its kind, digest size and message |
| Hashing.Pending | cryptography/src/hash/hasher.rs:44-50 | the bytes a core keeps buffered are those after the message's last whole block, fewer than a block |
| Hashing.ExpectedEmpty | cryptography/src/hash/hasher.rs:35-42 | the contents after an empty message are those `new` builds |
| Hashing.EmptyEngine | cryptography/src/hash/hasher.rs:35-42 | a valid core that has compressed nothing holds what `new` builds |
| Hashing.SameMessageSameState | cryptography/src/hash/hasher.rs:44-50 | `update` and `update_in_place` leave the same contents: two hashers of one kind and size that saw the same bytes hold the same state |
| Hashing.Hasher.constructor | cryptography/src/hash/hasher.rs:35-39 | a new hasher holds a fresh core for its digest size holding what `new` builds |
| Hashing.Hasher.Reset | cryptography/src/hash/hasher.rs:40-42 | after `reset` the hasher holds a fresh core, as `new` builds it |
| Hashing.Hasher.Update | cryptography/src/hash/hasher.rs:44-47 | the data are appended to the bytes the hasher has seen, and the same hasher is returned |
| Hashing.Hasher.UpdateInPlace | cryptography/src/hash/hasher.rs:48-50 | the data are appended to the bytes the hasher has seen |
| Hashing.Hasher.Digest | cryptography/src/hash/hasher.rs:52-55 | returns the truncated digest of everything given to `update` |
| Hashing.Hasher.DigestInto | cryptography/src/hash/hasher.rs:56-65 | a short `out` is an error, and then neither the core nor `out` changes; otherwise the truncated digest goes to the front of `out` and the rest of `out` is unchanged |
| Hashing.Hasher.DigestReset | cryptography/src/hash/hasher.rs:66-71 | returns the truncated digest, and the hasher then holds what `new` builds |
| Hashing.Hasher.DigestIntoReset | cryptography/src/hash/hasher.rs:72-82 | a short `out` is an error that changes nothing; otherwise the truncated digest goes to the front of `out`, the rest of `out` is unchanged, and the hasher then holds what `new` builds |
| Hashing.CopyPrefix | cryptography/src/hash/hasher.rs:62 | `out[..n].copy_from_slice(src)` overwrites the front of `out` and leaves the rest |

## Left out

- Raw memory is not modelled. Addresses are naturals, headers live in an arena instead of the pool's bytes, and `Layout`, `NonNull`, `PhantomData` and lifetimes are reduced to `(size, align)` and plain numbers. `usize` overflow of `start + pool.len()` is not modelled.
- The allocator's caller contract is stated as preconditions, not as behaviour: a double free, a mismatched layout or a foreign pointer cannot be written against `Deallocate`.
- The tests of lib.rs, header.rs, block_buffer.rs and traits.rs are not evaluated on their concrete values. `test_memory_allocation` (lib.rs:206-242) is stated for every number of orders and every pool aligned to its size, by `BuddyAllocator.MaxBlockRoundTrip`. It is stated on the specification functions, not on a run of the `Allocator` methods. `test_add_memory` (lib.rs:177-204) is covered only by the general contracts of `AddMemory` and `Tiling`; its four pool sizes are not evaluated.
- `BlockBuffer::get_mut_buf` and `set_pos_unchecked` are direct field accesses in the model.
- The processor closure of `process_data` is defunctionalised. `ProcessData` returns the argument of every call, in order, and each core then runs its processor loop over them.
- The cores' SHA test vectors (the doc tests of sha1.rs and sha2.rs) are not evaluated.
- Sha1.Sha1Core.Compress, Sha256.Sha256Core.Compress, Sha512.Sha512Core.Compress: the count must stay below 2^64 (2^128 for the 512 core). The source's `+=` panics in a debug build and wraps in a release build; the wrapping count is not modelled.
- Hashing.Hasher.Update: in the source `update` consumes `self` and returns it. The model returns the same object.
- Hashing.Hasher.Digest, Hashing.Hasher.DigestInto, Hashing.Hasher.DigestReset, Hashing.Hasher.DigestIntoReset: these require `DIGEST_SIZE <= Core::DIGEST_SIZE`, since the source's slicing panics otherwise. The `digest_into` variants also require `out` to be separate from the core, which Rust's borrow rules guarantee.
- Hashing.Hasher.DigestIntoReset: the model copies the digest into `out` before it resets the hasher; the source resets first. As `out` is separate from the hasher, the outcome is the same.
- Hashing.Hasher.Digest: the source consumes the hasher, and the model only finalizes the core. It says nothing about the core's contents afterwards.
- The `Core` type parameter of `Hasher` is the datatype `Kind`, and the core value is the datatype `Engine` holding one of the three core classes.
- `mutex`, `inout.rs` and the test-only `BuddyAllocator` API of `buddy_allocator/src/tests.rs` and `buddy_allocator/tests/allocator.rs` are not part of this model.
