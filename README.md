# vqueue in Dafny

vqueue is a single-producer single-consumer byte queue written in C. Its
storage is a ring of `capacity` bytes of shared memory mapped twice, back to
back, so that any window of up to `capacity` bytes starting at an offset below
`capacity` is contiguous. Two free-running `size_t`-wide cursors, `rptr` and
`wptr`, are never reset. The readable and writable space are derived from
their difference through `big_mask`, and a cursor's offset into the mapping
is the cursor `& small_mask`.

This project models the sequential engine of `vqueue.c` and the `vq_t`
record of `vqueue.h`, and proves properties of that model:

- `sizet.dfy` (module `SizeT`): `size_t` as a natural below 2^64.
  - Every `+`, `-` and `<<` that can leave that range is reduced modulo 2^64 explicitly (`Wrap`).
  - The `ptrdiff_t` cursors are kept as their two's complement bit pattern.
  - `&`, `|`, `>>` and `~` are defined on binary expansions.
  - Bitwise identities are proved one bit at a time (`TestBit`, `BitsEqual`).
- `capacity.dfy` (module `Capacity`): the size computation at the start of `vq_init`.
  - The decrement / bit-smearing loop / increment is an imperative method with its loop invariant, proved equal to a closed-form reference `NextPow2`.
  - `PageRound` models the page rounding.
  - `Layout` derives the two masks.
- `mapping.dfy` (module `Mapping`): the double mapping.
  - Virtual byte `a` of the `2 * capacity` mapped bytes is physical byte `Mirror(capacity, a)`.
  - `Window` is what a reader sees at an offset.
  - `Store` is the shared memory after a copy into the mapping.
- `space.dfy` (module `Space`): the space formulas, the offsets, the commit and clamp rules, and lemmas relating the reported space to the true occupancy `wptr - rptr`.
- `vqueue.dfy` (module `VQueue`): `vq_t` as the class `Queue`, whose cursor fields and byte array the operations update in place.
  - The functions of `vqueue.c` are methods on a `Queue?`; NULL is `null`.
  - `Contents()` is the sequence of unread bytes, oldest first. The lemmas and postconditions state the FIFO behaviour in terms of it.

The model follows the code as written in two places where the code differs from what its documentation or its evident design asks for:

- `big_mask` is `small_mask << 1`, that is `2 * capacity - 2` (vqueue.c:27). No comment in vqueue.c or vqueue.h documents the mask. But masking a cursor difference modulo `2 * capacity` evidently needs `2 * capacity - 1`.
  - Every reported space has bit 0 cleared.
  - With an odd occupancy, the readable and writable space add up to `capacity - 2`.
  - A capacity of 1 never reports any space.
  - `Space.SpaceSum` states this.
- `vq_zcr_end` and `vq_zcw_end` commit the larger of the requested length and the current space (vqueue.c:109-110, 142-143), not the smaller.
  - vqueue.h:34 documents the length passed to `vq_zcw_end` as the amount of data written. vqueue.h:60 and vqueue.h:68 document the results of `vq_generic_read` and `vq_generic_write` as the amount read and the amount written.
  - So `vq_read` and `vq_write`, given a non-zero request, copy `min(length, space)` bytes but advance the cursor by the whole space and return it.
  - The reader's commit is not clamped to the readable space.

Atomic loads and `atomic_fetch_add` are plain reads and writes of the cursor fields. The page size returned by `sysconf` is a parameter, required to be a power of two.

## Model

| member | source | states |
|---|---|---|
| Capacity.NextPow2 | vqueue.c:20-23 | defines the closed-form reference for the rounding, 2 to the bit length of `m - 1` modulo 2^64; its meaning is given by `Capacity.NextPow2IsLeast` and `Capacity.NextPow2Minimal` |
| Capacity.PageRound | vqueue.c:25 | defines `(size + pagesize - 1) & ~(pagesize - 1)` in `size_t`; its meaning is given by `Capacity.PageRoundIsCeiling`, `Capacity.PageRoundZero` and `Capacity.PageRoundPow2` |
| Capacity.RoundUpPow2 | vqueue.c:20-23 | the decrement, smear loop and increment compute `NextPow2(m)`, 2 to the bit length of `m - 1` modulo 2^64 |
| Capacity.NextPow2IsLeast | vqueue.c:20-23 | for 1 <= m <= 2^63 the rounding is a power of two with m <= r < 2m; for m = 0 (where `m - 1` wraps) and m > 2^63 it is 0 |
| Capacity.NextPow2Minimal | vqueue.c:20-23 | every power of two that is at least m is at least the rounding: it is the least such power |
| Capacity.SmearStart | vqueue.c:20 | before the loop, no bit of `m - 1` is set at or above its bit length, and its top bit is set |
| Capacity.SmearStep | vqueue.c:21-22 | one round `m \|= m >> i` stays below 2^64 and doubles the run of set bits below the top bit |
| Capacity.SmearDone | vqueue.c:21-23 | after the round with shift 32 every bit below the bit length is set, so `m == 2^L - 1` |
| Capacity.PageMask | vqueue.c:25 | `~(2^p - 1)` is the run of ones from bit p to bit 63 |
| Capacity.ClearLowBits | vqueue.c:25 | `y & (ones from bit p)` is `y` rounded down to a multiple of 2^p |
| Capacity.AddSubOne | vqueue.c:25 | `size + pagesize - 1` does not wrap when the true sum is at most 2^64 |
| Capacity.PageRoundIsCeiling | vqueue.c:25 | for a power-of-two page size and a sum that does not wrap, the rounding is the least multiple of the page size at or above `size` |
| Capacity.PageRoundZero | vqueue.c:25 | a size of 0 rounds to 0 |
| Capacity.PageRoundPow2 | vqueue.c:25 | rounding a power of two `2^k` to a page `2^p` gives `2^max(k,p)`: a power of two, a page multiple, at least both, and equal to one of them |
| Capacity.Layout | vqueue.c:20-27 | the capacity is `PageRound(NextPow2(m), pagesize)`; for a power-of-two capacity `small_mask == capacity - 1` and `big_mask == 2 * capacity - 2` |
| Capacity.Masks | vqueue.c:26-27 | for a power-of-two capacity, `capacity - 1` and `(capacity - 1) << 1` do not wrap |
| Capacity.LayoutCapacity | vqueue.c:20-27 | for 1 <= m <= 2^63 the capacity is a power-of-two multiple of the page size, at least m and the page size, and below 2m unless it is the page size; for 0 and above 2^63 it is 0 |
| SizeT.ShiftLeft1 | vqueue.c:27 | `a << 1` is `2a` when bit 63 of `a` is clear |
| Space.ReadableSpace | vqueue.c:89 | defines `(wptr - rptr) & big_mask` (also vqueue.c:108), at most `big_mask`; its meaning is given by `Space.ReadableSpaceBounds` and `Space.SpaceSum` |
| Space.WritableSpace | vqueue.c:122 | defines `(rptr + capacity - wptr) & big_mask` (also vqueue.c:141), at most `big_mask`; its meaning is given by `Space.WritableSpaceBounds`, `Space.FreeCount` and `Space.SpaceSum` |
| Space.Occupancy | vqueue.c:89 | defines `wptr - rptr` modulo 2^64, the number of unread bytes; `Space.CursorDiff`, `Space.AdvanceWriter` and `Space.AdvanceReader` relate it to the cursors |
| Space.CursorOffset | vqueue.c:94 | `cursor & small_mask` is at most `small_mask` |
| Space.Committed | vqueue.c:109-110 | the end functions commit an amount that is at least both the length and the space, and equal to one of them |
| Space.Clamped | vqueue.c:153-154 | the generic functions offer an amount that is at most both the request and the space, and equal to one of them |
| Space.CapacityDivides | vqueue.c:25 | a power-of-two capacity divides 2^64, so cursor wrap-around keeps offsets consistent |
| Space.MaskedSpace | vqueue.c:27 | `x & (2c - 2)` is `2 * ((x / 2) mod c)`: even, at most `2c - 2`, and `x` rounded down to even when `x < 2c` |
| Space.OffsetIsMod | vqueue.c:94 | with `small_mask == capacity - 1` the offset is the cursor modulo the capacity |
| Space.OffsetAdvance | vqueue.c:127 | advancing a cursor by up to `capacity` moves its offset round the ring, through the mirror |
| Space.CursorDiff | vqueue.c:89 | the writer's cursor is the reader's plus the occupancy, modulo 2^64 |
| Space.WriterOffset | vqueue.c:127 | the writer's offset lies `wptr - rptr` bytes after the reader's, round the ring |
| Space.FreeCount | vqueue.c:122 | `rptr + capacity - wptr` is the capacity minus the occupancy modulo 2^64, and exactly that while the occupancy is at most the capacity |
| Space.ReadableSpaceBounds | vqueue.c:89 | the readable space is even and at most `2 * capacity - 2`; with the occupancy within the capacity it is the occupancy rounded down to even, so never more than was written |
| Space.WritableSpaceBounds | vqueue.c:122 | the writable space is even and at most `2 * capacity - 2`; with the occupancy within the capacity it is the free room rounded down to even, so writing it overwrites nothing unread |
| Space.SpaceSum | vqueue.c:27 | readable plus writable space is the capacity for an even occupancy and the capacity minus 2 for an odd one; a capacity of 1 reports no space at all |
| Space.AdvanceWriter | vqueue.c:144 | advancing `wptr` by n adds n to the occupancy modulo 2^64 |
| Space.AdvanceReader | vqueue.c:111 | advancing `rptr` by n takes n from the occupancy modulo 2^64 |
| Space.ReadCommit | vqueue.c:108-111 | a read commit of a length within the occupancy consumes exactly its amount; the occupancy stays within the capacity if and only if the length is within the occupancy or so large that the cursor wraps back |
| Space.WriteCommit | vqueue.c:141-144 | a write commit of a length within the free room adds exactly its amount; the occupancy stays within the capacity if and only if the length fits or wraps back, so an over-long commit overwrites unread data |
| Space.ConsumeWindow | vqueue.c:111 | consuming n of the d unread bytes leaves the last d - n of them unread |
| Space.ProduceWindow | vqueue.c:185-187 | after storing `src` at the writer's offset and advancing by m, the unread bytes are the old ones, then `src`, then the m - \|src\| bytes already in memory there |
| Space.CommitWindow | vqueue.c:144 | advancing the writer by m makes the m bytes at its old offset the tail of the unread bytes |
| Mapping.Mirror | vqueue.c:54-55 | the second mapping aliases the first: every virtual byte below `2 * capacity` has a physical byte below `capacity` |
| Mapping.Distance | vqueue.c:54-55 | how far a physical byte is ahead of an offset, round the ring, is below the capacity |
| Mapping.Window | vqueue.c:94 | the window at an offset has the requested length and byte i is the physical byte behind virtual byte `off + i` |
| Mapping.Store | vqueue.c:176 | a copy into the mapping leaves the shared memory the same size |
| Mapping.MirrorIsMod | vqueue.c:54-55 | virtual byte a is physical byte `a mod capacity` |
| Mapping.WindowOfStore | vqueue.c:176 | reading back through the mapping what was just copied in at the same offset gives the copied bytes |
| Mapping.WindowAfterStore | vqueue.c:176 | a window of d + m bytes read after a store at its d-th byte is the old d bytes, the stored bytes and the old bytes after them |
| Mapping.WindowDrop | vqueue.c:111 | dropping the first k bytes of a window is the window k bytes further on |
| Mapping.WindowSplit | vqueue.c:144 | a window of d + m bytes is the window of d bytes followed by the m bytes after it |
| Mapping.StoreNothing | vqueue.c:175 | storing no bytes changes no byte |
| VQueue.SpacePointer | vqueue.c:90-96 | the pointer stored is NULL exactly when the space is 0, and otherwise points at the given offset |
| VQueue.Written | vqueue.h:50-52 | a callback's bytes cut to the window: at most `length` of them, a prefix of what it produced, and all of it when it fits |
| VQueue.ReadRequest | vqueue.c:156-159 | without a callback, and with `read_cb`, the amount committed is the clamped length |
| VQueue.Queue.constructor | vqueue.c:13 | a fresh record with the given power-of-two capacity and its masks, satisfying `Valid`, with both cursors 0 and zero-filled shared memory |
| VQueue.Queue.Valid | vqueue.c:25-27 | defines what `vq_init` establishes and no operation changes: a power-of-two capacity, `small_mask == capacity - 1`, `big_mask == 2 * capacity - 2`, and `capacity` bytes of shared memory; `VQueue.Queue.constructor` and `VQueue.Init` establish it |
| VQueue.Queue.Consistent | vqueue.h:35 | defines the protocol invariant: `Valid` and at most `capacity` unread bytes; `VQueue.Init` establishes it, and the end functions and `VQueue.Read`/`VQueue.WriteAppends` preserve it for commits within the space |
| VQueue.Queue.Contents | vqueue.h:12-14 | the unread bytes number exactly `wptr - rptr` |
| VQueue.Init | vqueue.c:12-27 | the result is NULL exactly when the computed capacity is 0 or the mapping fails; otherwise a fresh queue with that capacity and masks that fit it, both cursors 0 (the `calloc`), zero-filled shared memory, and no unread bytes |
| VQueue.ZcrStart | vqueue.c:81-99 | NULL queue gives 0 and nothing stored; otherwise the readable space, and NULL or the reader's offset stored when a pointer was passed; the offset is `rptr mod capacity`, the space even and at most the occupancy; nothing changes |
| VQueue.ZcrEnd | vqueue.c:101-113 | NULL or a zero length gives 0 and changes nothing; otherwise only `rptr` advances, by the larger of length and space, which is returned; a commit within the occupancy removes that many bytes from the front of the unread bytes |
| VQueue.ZcwStart | vqueue.c:115-132 | NULL queue gives 0 and nothing stored; otherwise the writable space, and NULL or the writer's offset stored; the offset is `wptr mod capacity`, the space even and at most the free room; nothing changes |
| VQueue.ZcwEnd | vqueue.c:134-146 | NULL or a zero length gives 0 and changes nothing; otherwise only `wptr` advances, by the larger of length and space, which is returned; a commit within the free room appends the bytes at the old writer offset to the unread bytes |
| VQueue.ReadCb | vqueue.c:179-184 | returns its length; with destination, pointer and length all non-zero it copies `length` bytes out of the mapping into the front of the destination, and otherwise copies nothing |
| VQueue.WriteCb | vqueue.c:173-178 | returns its length; with pointer, source and length all non-zero it copies `length` bytes of the source into the mapping, and otherwise changes no byte |
| VQueue.GenericRead | vqueue.c:147-161 | NULL gives 0; otherwise the request is clamped to the readable space and whatever the callback returns (the clamped length without one) is committed through `ZcrEnd`; `read_cb` copies the first clamped-length bytes of the mapping window out; a commit within the occupancy removes that many unread bytes |
| VQueue.GenericWrite | vqueue.c:163-172 | NULL queue or callback gives 0 and changes nothing; otherwise the request is clamped to the writable space and whatever the callback returns is committed through `ZcwEnd`; a caller's callback stores the first clamped-length bytes it produces at the writer's offset, and `write_cb` the first clamped-length bytes of the source; with no callback, or `write_cb` without a source, no byte changes |
| VQueue.Read | vqueue.c:189-191 | NULL gives 0 and leaves the destination untouched; otherwise, with k the request clamped to the readable space s: the first k unread bytes are copied out, the reader advances by s when k > 0 and s is returned, at most the unread count, and the unread bytes lose their first s |
| VQueue.Write | vqueue.c:185-187 | with k the request clamped to the writable space s: the first k bytes of the data are stored at the writer's offset, the writer advances by s when k > 0 and s is returned, never more than the free room |
| VQueue.WriteAppends | vqueue.c:185-187 | after such a write, the unread bytes are the old ones, then the k copied bytes, then the s - k bytes already in memory there |

## Left out

- Setting up and tearing down the shared memory: `shm_unlink`, `shm_open`, `ftruncate`, `mmap`, `munmap`, `calloc` and `free` (vqueue.c:13-15 and 29-73), and `vq_destroy` (vqueue.c:76-80). These are operating-system calls. In `VQueue.Init`, whether they succeed is the parameter `mapped`, and the two mappings are one array read through `Mirror`. Also, a `calloc` failure is treated like a mapping failure.
- `sysconf(_SC_PAGE_SIZE)` is an operating-system query. The page size is a parameter, which `VQueue.Init` requires to be a power of two.
- Atomic memory ordering and interleavings of the producer and consumer threads. Each operation is modelled as one sequential step with plain reads and writes of the cursors.
- The `_fd`, `_buffer_start` and `_buffer_middle` fields (vqueue.h:17-19). They belong to the mapping set-up. Pointers into the mapping are offsets (`Pointer`).
- The bodies of callers' `vq_read_fn` and `vq_write_fn` callbacks. A read callback is a function from the pointer and length to the amount returned. A write callback is that function plus the bytes it writes from the pointer on.
- VQueue.GenericWrite: a caller's callback is modelled as writing a prefix of the window, not arbitrary bytes inside it. What it writes is stated only for a queue that satisfies `Valid` and a window of at most `capacity` bytes. Otherwise the window can reach past the double mapping, which one `capacity`-byte array cannot represent.
- VQueue.GenericRead: for a caller's callback, its `opaque` context is not modelled.
- VQueue.Read: the copy path requires the occupancy invariant (`Consistent`) and a destination at least `length` bytes long. Without them the C `memmove` can cross the end of the double mapping or of the destination. The copy path also requires a destination distinct from the shared memory, in `VQueue.Read`, `VQueue.GenericRead` and `VQueue.ReadCb`. That is a modelling restriction, not an overrun guard: `memmove` allows overlapping ranges, but a destination inside the mapping is not modelled.
- VQueue.Write: requires the occupancy invariant when the data pointer is not NULL, for the same reason. The effect on the unread bytes is stated by `VQueue.WriteAppends` rather than in the method's own postcondition.
- VQueue.ZcrEnd: the effect on the unread bytes is stated only for a commit within the occupancy. Beyond it `rptr` passes `wptr`, and no unread bytes are defined.
- VQueue.ZcwEnd: the effect on the unread bytes is stated only for a commit within the free room. Beyond it unread data is overwritten, as vqueue.h:35 warns, and `Space.WriteCommit` characterises when the occupancy leaves the capacity.
- Capacity.PageRoundIsCeiling: stated for power-of-two page sizes only, which every page size `sysconf` reports is.
- Signed overflow of the `ptrdiff_t` cursor arithmetic, undefined in C, is read as two's complement wrap-around, on which the cursor design relies.
