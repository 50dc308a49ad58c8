/**
 * The queue itself: the `vq_t` record of vqueue.h:8-20 as a class whose
 * cursors the operations advance in place, and the operations of
 * vqueue.c on it.  A `vq_t *` that may be NULL is a `Queue?`; the two
 * `size_t` masks and the capacity are fields that no operation writes; the
 * double mapping is the `buffer` array read and written through
 * `Mapping.Mirror`.  Atomic loads and `atomic_fetch_add` are plain reads
 * and writes of the cursor fields.
 */
module VQueue {
  import opened SizeT
  import opened Mapping
  import opened Space
  import Capacity

  datatype Option<T> = None | Some(value: T)

  /** A pointer into the mapping: NULL, or `_buffer_start + offset`. */
  datatype Pointer = Null | At(offset: nat)

  /**
   * The `vq_read_fn` given to `vq_generic_read`: a caller's callback, of
   * which only the amount it asks to drop is modelled, or the library's own
   * `read_cb` (`CopyOut`), which copies out to its `opaque` argument.
   */
  datatype ReadFn = UserReadFn(drop: (Pointer, Word) -> Word) | CopyOut

  /**
   * The `vq_write_fn` given to `vq_generic_write`: a caller's callback, given
   * by the bytes it writes into the mapping from `data` on (`fill`, of which
   * at most `length` land) and the amount it asks to commit, or the
   * library's own `write_cb` (`CopyIn`), which copies in from its `opaque`
   * argument.
   */
  datatype WriteFn = UserWriteFn(fill: (Pointer, Word) -> seq<bv8>, commit: (Pointer, Word) -> Word) | CopyIn

  /** The bytes a callback that produced `bytes` leaves in a window of `length` bytes: the first `length` of them. */
  function Written(bytes: seq<bv8>, length: Word): (w: seq<bv8>)
    ensures |w| <= length && |w| <= |bytes|
    ensures w == bytes[..|w|] && (|w| == length || w == bytes)
  {
    if |bytes| <= length then bytes else bytes[..length]
  }

  /** What `*read_ptr` / `*write_ptr` is set to: NULL when there is no space, else the cursor's offset. */
  function SpacePointer(space: Word, offset: Word): (p: Pointer)
    ensures p.Null? <==> space == 0
    ensures p.At? ==> p.offset == offset
  {
    if space == 0 then Null else At(offset)
  }

  /**
   * vqueue.c:156-159 and 183: the amount `vq_generic_read` passes to
   * `vq_zcr_end`: what a caller's callback returns, or the length handed to
   * `read_cb`, which returns it unchanged, or, with no callback, that length.
   */
  function ReadRequest(readFn: Option<ReadFn>, p: Pointer, k: Word): (c: Word)
    ensures readFn.None? || readFn == Some(CopyOut) ==> c == k
  {
    match readFn
    case Some(UserReadFn(drop)) => drop(p, k)
    case _ => k
  }

  /** vqueue.h:8-20. */
  class Queue {
    var capacity: Word
    var bigMask: Word
    var smallMask: Word
    var rptr: Word
    var wptr: Word
    /** The shared memory behind both mappings, `capacity` bytes. */
    var buffer: array<bv8>

    /** A freshly `calloc`ed record over freshly truncated, zero-filled shared memory. */
    constructor (capacity: Word, smallMask: Word, bigMask: Word)
      requires IsPow2(capacity) && smallMask == capacity - 1 && bigMask == 2 * capacity - 2
      ensures Valid()
      ensures this.capacity == capacity && this.smallMask == smallMask && this.bigMask == bigMask
      ensures rptr == 0 && wptr == 0
      ensures fresh(buffer) && buffer[..] == seq(capacity, _ => 0 as bv8)
    {
      this.capacity := capacity;
      this.smallMask := smallMask;
      this.bigMask := bigMask;
      rptr := 0;
      wptr := 0;
      buffer := new bv8[capacity](_ => 0);
    }

    /** What `vq_init` establishes and no operation changes. */
    predicate Valid()
      reads this
    {
      IsPow2(capacity) && smallMask == capacity - 1 && bigMask == 2 * capacity - 2
      && buffer.Length == capacity
    }

    /** The protocol invariant: no more written than the capacity holds. */
    ghost predicate Consistent()
      reads this
    {
      Valid() && Unread() <= capacity
    }

    function Unread(): Word
      reads this
    {
      Occupancy(rptr, wptr)
    }

    function ReadSpace(): Word
      reads this
    {
      ReadableSpace(rptr, wptr, bigMask)
    }

    function WriteSpace(): Word
      reads this
    {
      WritableSpace(rptr, wptr, capacity, bigMask)
    }

    function ReadOffset(): Word
      reads this
    {
      CursorOffset(rptr, smallMask)
    }

    function WriteOffset(): Word
      reads this
    {
      CursorOffset(wptr, smallMask)
    }

    /** The fields fixed at initialisation. */
    function Shape(): (Word, Word, Word, array<bv8>)
      reads this
    {
      (capacity, smallMask, bigMask, buffer)
    }

    /** The bytes written and not yet consumed, oldest first. */
    ghost function Contents(): (s: seq<bv8>)
      reads this, buffer
      requires Consistent()
      ensures |s| == Unread()
    {
      Window(buffer[..], ReadOffset(), Unread())
    }
  }

  /**
   * vqueue.c:12-27 and 60-61: the size computation, then the record.
   * Whether the shared-memory object and the two mappings can be set up
   * (vqueue.c:30-59) is the parameter `mapped`; a capacity of 0 always
   * fails there, because the first `mmap` asks for `big_mask + 1`, that is
   * 2^64 - 1, bytes.  On failure the result is NULL (vqueue.c:63-73).
   */
  method Init(minCapacity: Word, pageSize: Word, mapped: bool) returns (vq: Queue?)
    requires IsPow2(pageSize)
    ensures var c := Capacity.PageRound(Capacity.NextPow2(minCapacity), pageSize);
            (vq == null <==> c == 0 || !mapped)
            && (vq != null ==> fresh(vq) && fresh(vq.buffer) && vq.capacity == c
                               && vq.rptr == 0 && vq.wptr == 0
                               && vq.buffer[..] == seq(c, _ => 0 as bv8)
                               && vq.Consistent() && vq.Contents() == [])
  {
    var capacity, smallMask, bigMask := Capacity.Layout(minCapacity, pageSize);
    if capacity == 0 || !mapped {
      return null;
    }
    Capacity.LayoutCapacity(minCapacity, pageSize);
    vq := new Queue(capacity, smallMask, bigMask);
  }

  /**
   * vqueue.c:81-99.  `hasReadPtr` says whether the caller passed a
   * non-NULL `read_ptr`; `stored` is what was stored through it (None:
   * nothing).  Nothing in the queue changes (no `modifies`).
   */
  method ZcrStart(vq: Queue?, hasReadPtr: bool) returns (space: Word, stored: Option<Pointer>)
    ensures vq == null ==> space == 0 && stored == None
    ensures vq != null ==>
              space == vq.ReadSpace()
              && stored == if hasReadPtr then Some(SpacePointer(space, vq.ReadOffset())) else None
    ensures vq != null && vq.Valid() ==>
              space % 2 == 0 && space <= 2 * vq.capacity - 2
              && vq.ReadOffset() == vq.rptr % vq.capacity < vq.capacity
    ensures vq != null && vq.Consistent() ==> space <= vq.Unread()
  {
    if vq == null {
      return 0, None;
    }
    var r := vq.rptr;
    var w := vq.wptr;
    space := ReadableSpace(r, w, vq.bigMask);
    stored := None;
    if hasReadPtr {
      if space == 0 {
        stored := Some(Null);
      } else {
        stored := Some(At(CursorOffset(r, vq.smallMask)));
      }
    }
    if vq.Valid() {
      ReadableSpaceBounds(r, w, vq.capacity, vq.bigMask);
      OffsetIsMod(r, vq.capacity, vq.smallMask);
    }
  }

  /**
   * vqueue.c:101-113.  With a NULL queue or a zero length nothing happens;
   * otherwise the reader advances by the larger of `length` and the
   * readable space.  Only `rptr` changes.
   */
  method ZcrEnd(vq: Queue?, length: Word) returns (n: Word)
    modifies vq
    ensures vq == null || length == 0 ==> n == 0
    ensures vq != null ==> vq.wptr == old(vq.wptr) && vq.Shape() == old(vq.Shape())
    ensures vq != null && length == 0 ==> vq.rptr == old(vq.rptr)
    ensures vq != null && length != 0 ==>
              n == Committed(length, old(vq.ReadSpace())) && vq.rptr == Add(old(vq.rptr), n)
    ensures vq != null && old(vq.Consistent()) && length <= old(vq.Unread()) ==>
              vq.Consistent() && vq.Contents() == old(vq.Contents())[n..]
  {
    if vq == null || length == 0 {
      return 0;
    }
    var r := vq.rptr;
    var w := vq.wptr;
    var space := ReadableSpace(r, w, vq.bigMask);
    n := length;
    if space > n {
      n := space;
    }
    vq.rptr := Add(vq.rptr, n);
    if vq.Valid() && Occupancy(r, w) <= vq.capacity && length <= Occupancy(r, w) {
      ReadCommit(r, w, vq.capacity, vq.bigMask, length);
      ConsumeWindow(vq.buffer[..], r, w, vq.capacity, vq.smallMask, n);
    }
  }

  /**
   * vqueue.c:115-132.  As `ZcrStart`, for the writer: the writable space
   * and the writer's offset.  Nothing in the queue changes.
   */
  method ZcwStart(vq: Queue?, hasWritePtr: bool) returns (space: Word, stored: Option<Pointer>)
    ensures vq == null ==> space == 0 && stored == None
    ensures vq != null ==>
              space == vq.WriteSpace()
              && stored == if hasWritePtr then Some(SpacePointer(space, vq.WriteOffset())) else None
    ensures vq != null && vq.Valid() ==>
              space % 2 == 0 && space <= 2 * vq.capacity - 2
              && vq.WriteOffset() == vq.wptr % vq.capacity < vq.capacity
    ensures vq != null && vq.Consistent() ==> space <= vq.capacity - vq.Unread()
  {
    if vq == null {
      return 0, None;
    }
    var r := vq.rptr;
    var w := vq.wptr;
    space := WritableSpace(r, w, vq.capacity, vq.bigMask);
    stored := None;
    if hasWritePtr {
      if space == 0 {
        stored := Some(Null);
      } else {
        stored := Some(At(CursorOffset(w, vq.smallMask)));
      }
    }
    if vq.Valid() {
      WritableSpaceBounds(r, w, vq.capacity, vq.bigMask);
      OffsetIsMod(w, vq.capacity, vq.smallMask);
    }
  }

  /**
   * vqueue.c:134-146.  With a NULL queue or a zero length nothing happens;
   * otherwise the writer advances by the larger of `length` and the
   * writable space, and the bytes in the mapping there become readable.
   * Only `wptr` changes.
   */
  method ZcwEnd(vq: Queue?, length: Word) returns (n: Word)
    modifies vq
    ensures vq == null || length == 0 ==> n == 0
    ensures vq != null ==> vq.rptr == old(vq.rptr) && vq.Shape() == old(vq.Shape())
    ensures vq != null && length == 0 ==> vq.wptr == old(vq.wptr)
    ensures vq != null && length != 0 ==>
              n == Committed(length, old(vq.WriteSpace())) && vq.wptr == Add(old(vq.wptr), n)
    ensures vq != null && old(vq.Consistent()) && length <= old(vq.capacity - vq.Unread()) ==>
              vq.Consistent() && n <= old(vq.capacity - vq.Unread())
              && vq.Contents() == old(vq.Contents()) + Window(vq.buffer[..], old(vq.WriteOffset()), n)
  {
    if vq == null || length == 0 {
      return 0;
    }
    var r := vq.rptr;
    var w := vq.wptr;
    var space := WritableSpace(r, w, vq.capacity, vq.bigMask);
    n := length;
    if space > n {
      n := space;
    }
    vq.wptr := Add(vq.wptr, n);
    if vq.Valid() && Occupancy(r, w) <= vq.capacity && length <= vq.capacity - Occupancy(r, w) {
      WriteCommit(r, w, vq.capacity, vq.bigMask, length);
      CommitWindow(vq.buffer[..], r, w, vq.capacity, vq.smallMask, n);
    }
  }

  /**
   * vqueue.c:179-184: `read_cb` copies `length` bytes from the mapping at
   * `data` to `dst` (its `opaque`) when all three are non-zero, and returns `length`.
   * `mem` is the shared memory behind the mapping.
   */
  method ReadCb(mem: array<bv8>, dst: array?<bv8>, data: Pointer, length: Word) returns (r: Word)
    requires dst != null && data.At? && length > 0 ==>
               data.offset < mem.Length && length <= mem.Length && length <= dst.Length
               && dst != mem
    modifies dst
    ensures r == length
    ensures dst != null && data.At? && length > 0 ==>
              dst[..length] == Window(mem[..], data.offset, length)
              && dst[length..] == old(dst[length..])
    ensures dst != null && !(data.At? && length > 0) ==> dst[..] == old(dst[..])
  {
    if dst != null && data.At? && length > 0 {
      forall i | 0 <= i < length {
        dst[i] := mem[Mirror(mem.Length, data.offset + i)];
      }
    }
    r := length;
  }

  /**
   * vqueue.c:173-178: `write_cb` copies `length` bytes of `src` (its `opaque`) into the
   * mapping at `data` when all three are non-zero, and returns `length`.
   */
  method WriteCb(mem: array<bv8>, data: Pointer, src: Option<seq<bv8>>, length: Word) returns (r: Word)
    requires data.At? && src.Some? && length > 0 ==>
               data.offset < mem.Length && length <= mem.Length && length <= |src.value|
    modifies mem
    ensures r == length
    ensures data.At? && src.Some? && length > 0 ==>
              mem[..] == Store(old(mem[..]), data.offset, src.value[..length])
    ensures !(data.At? && src.Some? && length > 0) ==> mem[..] == old(mem[..])
  {
    if data.At? && src.Some? && length > 0 {
      forall j | 0 <= j < mem.Length && Distance(mem.Length, data.offset, j) < length {
        mem[j] := src.value[Distance(mem.Length, data.offset, j)];
      }
    }
    r := length;
  }

  /**
   * vqueue.c:147-161.  The request is clamped to the readable space, handed
   * to the callback together with the read pointer, and whatever the
   * callback returns is committed through `ZcrEnd`.  `ctx` (the `opaque`
   * argument) is the destination of `read_cb`; a caller's callback is
   * modelled by the amount it returns only.
   */
  method GenericRead(vq: Queue?, readFn: Option<ReadFn>, ctx: array?<bv8>, length: Word) returns (n: Word)
    requires vq != null && readFn == Some(CopyOut) && ctx != null ==>
               vq.Consistent() && ctx != vq.buffer && length <= ctx.Length
    modifies vq, ctx
    ensures vq == null ==> n == 0
    ensures vq != null ==>
              var s := old(vq.ReadSpace());
              var c := ReadRequest(readFn, SpacePointer(s, old(vq.ReadOffset())), Clamped(length, s));
              n == (if c == 0 then 0 else Committed(c, s))
              && vq.rptr == Add(old(vq.rptr), n) && vq.wptr == old(vq.wptr) && vq.Shape() == old(vq.Shape())
              && vq.buffer[..] == old(vq.buffer[..])
    ensures vq != null && readFn == Some(CopyOut) && ctx != null ==>
              var k := Clamped(length, old(vq.ReadSpace()));
              k <= old(vq.Unread())
              && ctx[..k] == Window(old(vq.buffer[..]), old(vq.ReadOffset()), k)
              && ctx[k..] == old(ctx[k..])
    ensures ctx != null && (vq == null || readFn != Some(CopyOut)) ==> ctx[..] == old(ctx[..])
    ensures vq != null && old(vq.Consistent()) ==>
              var s := old(vq.ReadSpace());
              var c := ReadRequest(readFn, SpacePointer(s, old(vq.ReadOffset())), Clamped(length, s));
              c <= old(vq.Unread()) ==> vq.Consistent() && vq.Contents() == old(vq.Contents())[n..]
  {
    if vq == null {
      return 0;
    }
    AddZero(vq.rptr);
    var buffer: Pointer := Null;
    var space, stored := ZcrStart(vq, true);
    if stored.Some? {
      buffer := stored.value;
    }
    var len := length;
    if space < len {
      len := space;
    }
    match readFn {
      case Some(UserReadFn(drop)) =>
        n := ZcrEnd(vq, drop(buffer, len));
      case Some(CopyOut) =>
        var m := ReadCb(vq.buffer, ctx, buffer, len);
        n := ZcrEnd(vq, m);
      case None =>
        n := ZcrEnd(vq, len);
    }
  }

  /**
   * vqueue.c:163-172.  With a NULL queue or callback nothing happens;
   * otherwise the request is clamped to the writable space, handed to the
   * callback together with the write pointer, and whatever the callback
   * returns is committed through `ZcwEnd`.  `ctx` (the `opaque` argument,
   * None for NULL) is the source of `write_cb`; a caller's callback writes
   * the first clamped-length bytes of its `fill` at the write pointer.
   */
  method GenericWrite(vq: Queue?, writeFn: Option<WriteFn>, ctx: Option<seq<bv8>>, length: Word)
    returns (n: Word)
    requires vq != null && writeFn == Some(CopyIn) && ctx.Some? ==>
               vq.Consistent() && length <= |ctx.value|
    modifies vq, if vq == null then {} else {vq.buffer}
    ensures vq == null || writeFn.None? ==> n == 0
    ensures vq != null ==> vq.rptr == old(vq.rptr) && vq.Shape() == old(vq.Shape())
    ensures vq != null && writeFn.None? ==> vq.wptr == old(vq.wptr)
    ensures vq != null && writeFn.Some? && writeFn.value.UserWriteFn? && old(vq.Valid()) ==>
              var s := old(vq.WriteSpace());
              var k := Clamped(length, s);
              var w := Written(writeFn.value.fill(SpacePointer(s, old(vq.WriteOffset())), k), k);
              k <= old(vq.buffer.Length) ==> vq.buffer[..] == Store(old(vq.buffer[..]), old(vq.WriteOffset()), w)
    ensures vq != null && writeFn.Some? && writeFn.value.UserWriteFn? ==>
              var s := old(vq.WriteSpace());
              var c := writeFn.value.commit(SpacePointer(s, old(vq.WriteOffset())), Clamped(length, s));
              n == (if c == 0 then 0 else Committed(c, s)) && vq.wptr == Add(old(vq.wptr), n)
    ensures vq != null && writeFn == Some(CopyIn) ==>
              var s := old(vq.WriteSpace());
              n == (if Clamped(length, s) == 0 then 0 else s) && vq.wptr == Add(old(vq.wptr), n)
    ensures vq != null && (writeFn.None? || (writeFn == Some(CopyIn) && ctx.None?)) ==> vq.buffer[..] == old(vq.buffer[..])
    ensures vq != null && writeFn == Some(CopyIn) && ctx.Some? ==>
              var k := Clamped(length, old(vq.WriteSpace()));
              k <= old(vq.capacity - vq.Unread())
              && vq.buffer[..] == Store(old(vq.buffer[..]), old(vq.WriteOffset()), ctx.value[..k])
  {
    if vq == null || writeFn.None? {
      return 0;
    }
    AddZero(vq.wptr);
    ghost var b0 := vq.buffer[..];
    var buffer: Pointer := Null;
    var space, stored := ZcwStart(vq, true);
    if stored.Some? {
      buffer := stored.value;
    }
    var len := length;
    if space < len {
      len := space;
    }
    match writeFn.value {
      case UserWriteFn(fill, commit) =>
        // The callback's writes: its bytes, cut to the window, land at the write pointer.
        var w := Written(fill(buffer, len), len);
        if vq.Valid() && len <= vq.buffer.Length {
          if |w| == 0 {
            StoreNothing(b0, vq.WriteOffset());
          }
          var copied := WriteCb(vq.buffer, buffer, Some(w), |w| as Word);
        }
        n := ZcwEnd(vq, commit(buffer, len));
      case CopyIn =>
        if ctx.Some? && len == 0 {
          StoreNothing(b0, vq.WriteOffset());
        }
        var m := WriteCb(vq.buffer, buffer, ctx, len);
        n := ZcwEnd(vq, m);
    }
  }

  /**
   * vqueue.c:189-191: `vq_generic_read` with `read_cb`.  With k the request
   * clamped to the readable space s: the first k unread bytes are copied
   * out, and (k being non-zero) the reader advances by s, not by k, and s
   * is returned; the bytes beyond k up to s are dropped uncopied.
   */
  method Read(vq: Queue?, readPtr: array?<bv8>, length: Word) returns (n: Word)
    requires vq != null && readPtr != null ==>
               vq.Consistent() && readPtr != vq.buffer && length <= readPtr.Length
    modifies vq, readPtr
    ensures vq == null ==> n == 0
    ensures vq == null && readPtr != null ==> readPtr[..] == old(readPtr[..])
    ensures vq != null ==>
              var s := old(vq.ReadSpace());
              n == (if Clamped(length, s) == 0 then 0 else s)
              && vq.rptr == Add(old(vq.rptr), n) && vq.wptr == old(vq.wptr) && vq.Shape() == old(vq.Shape())
    ensures vq != null && readPtr != null ==>
              var k := Clamped(length, old(vq.ReadSpace()));
              k <= old(vq.Unread()) && readPtr[..k] == old(vq.Contents())[..k]
              && readPtr[k..] == old(readPtr[k..])
    ensures vq != null && old(vq.Consistent()) ==>
              n <= old(vq.Unread()) && vq.Consistent() && vq.Contents() == old(vq.Contents())[n..]
  {
    if vq != null && vq.Consistent() {
      ReadableSpaceBounds(vq.rptr, vq.wptr, vq.capacity, vq.bigMask);
    }
    n := GenericRead(vq, Some(CopyOut), readPtr, length);
  }

  /**
   * vqueue.c:185-187: `vq_generic_write` with `write_cb`.  With k the
   * request clamped to the writable space s: k bytes of `data` are copied
   * in at the writer's offset, and (k being non-zero) the writer advances
   * by s, not by k, and s is returned.  `WriteAppends` turns this into the
   * reader's view: the s - k bytes after the copy, whatever the memory held
   * there, become readable too.
   */
  method Write(vq: Queue?, data: Option<seq<bv8>>, length: Word) returns (n: Word)
    requires vq != null && data.Some? ==> vq.Consistent() && length <= |data.value|
    modifies vq, if vq == null then {} else {vq.buffer}
    ensures vq == null ==> n == 0
    ensures vq != null ==>
              var s := old(vq.WriteSpace());
              n == (if Clamped(length, s) == 0 then 0 else s)
              && vq.wptr == Add(old(vq.wptr), n) && vq.rptr == old(vq.rptr) && vq.Shape() == old(vq.Shape())
    ensures vq != null && old(vq.Consistent()) ==>
              Clamped(length, old(vq.WriteSpace())) <= n <= old(vq.capacity - vq.Unread())
    ensures vq != null && data.Some? ==>
              var k := Clamped(length, old(vq.WriteSpace()));
              k <= |data.value| && k <= old(vq.buffer.Length)
              && vq.buffer[..] == Store(old(vq.buffer[..]), old(vq.WriteOffset()), data.value[..k])
    ensures vq != null && data.None? ==> vq.buffer[..] == old(vq.buffer[..])
  {
    if vq != null && vq.Consistent() {
      WritableSpaceBounds(vq.rptr, vq.wptr, vq.capacity, vq.bigMask);
    }
    n := GenericWrite(vq, Some(CopyIn), data, length);
  }

  /**
   * The FIFO argument for `vq_write`: when the writer advances by `n`, at
   * most the free room, after `src` was stored at its offset, the reader
   * sees its old contents, then `src`, then what the memory already held.
   */
  twostate lemma WriteAppends(vq: Queue, src: seq<bv8>, n: Word)
    requires old(vq.Consistent())
    requires vq.rptr == old(vq.rptr) && vq.Shape() == old(vq.Shape()) && vq.wptr == Add(old(vq.wptr), n)
    requires |src| <= n <= old(vq.capacity - vq.Unread())
    requires vq.buffer[..] == Store(old(vq.buffer[..]), old(vq.WriteOffset()), src)
    ensures vq.Consistent() && vq.Unread() == old(vq.Unread()) + n
    ensures vq.Contents() == old(vq.Contents()) + src
                             + Window(old(vq.buffer[..]), Mirror(vq.capacity, old(vq.WriteOffset()) + |src|), n - |src|)
  {
    var r0, w0 := old(vq.rptr), old(vq.wptr);
    assert vq.capacity == old(vq.capacity) && vq.smallMask == old(vq.smallMask) && vq.buffer == old(vq.buffer);
    ProduceWindow(old(vq.buffer[..]), r0, w0, vq.capacity, vq.smallMask, src, n);
  }
}
