/**
 * The cursor arithmetic of the queue: the two free-running cursors `rptr`
 * and `wptr`, the readable and writable space computed from them through
 * `big_mask`, the window offsets computed through `small_mask`, and the
 * amounts the `*_end` functions commit.  `ptrdiff_t` cursors are kept as
 * their two's complement bit pattern, a `Word`; every sum and difference
 * in vqueue.c is reduced modulo 2^64.
 */
module Space {
  import opened SizeT
  import opened Mapping

  /** vqueue.c:89 and 108: `(wptr - rptr) & big_mask`. */
  function ReadableSpace(rptr: Word, wptr: Word, bigMask: Word): (s: Word)
    ensures s <= bigMask
  {
    And(Sub(wptr, rptr), bigMask)
  }

  /** vqueue.c:122 and 141: `(rptr + capacity - wptr) & big_mask`. */
  function WritableSpace(rptr: Word, wptr: Word, capacity: Word, bigMask: Word): (s: Word)
    ensures s <= bigMask
  {
    And(Sub(Add(rptr, capacity), wptr), bigMask)
  }

  /** vqueue.c:94 and 127: `cursor & small_mask`, the offset into the mapping. */
  function CursorOffset(cursor: Word, smallMask: Word): (off: Word)
    ensures off <= smallMask
  {
    And(cursor, smallMask)
  }

  /** The number of bytes written and not yet consumed, `wptr - rptr`. */
  function Occupancy(rptr: Word, wptr: Word): Word
  {
    Sub(wptr, rptr)
  }

  /**
   * vqueue.c:109-110 and 142-143: `if (space > length) length = space`.
   * The end functions commit the larger of the two.
   */
  function Committed(length: Word, space: Word): (n: Word)
    ensures n >= length && n >= space && (n == length || n == space)
  {
    if space > length then space else length
  }

  /** vqueue.c:153-154 and 169-170: `if (space < length) length = space`. */
  function Clamped(length: Word, space: Word): (n: Word)
    ensures n <= length && n <= space && (n == length || n == space)
  {
    if space < length then space else length
  }

  // ---------------------------------------------------------------------
  // The masks of a power-of-two capacity

  /** A power-of-two capacity divides 2^64. */
  lemma CapacityDivides(capacity: Word) returns (t: nat)
    requires IsPow2(capacity)
    ensures capacity * t == TWO64
  {
    WordPow2(capacity);
    var k := BitLength(capacity) - 1;
    Pow2Add(k, 64 - k);
    Pow2Word();
    t := Pow2(64 - k);
  }

  /** A power-of-two capacity other than 1 is even. */
  lemma CapacityEven(capacity: nat)
    requires IsPow2(capacity) && capacity >= 2
    ensures capacity % 2 == 0
  {
  }

  /** `x & (2c - 2)` for a power of two c: bit 0 cleared, at most 2c - 2, and `x` itself rounded down to even below 2c. */
  lemma MaskedSpace(x: Word, capacity: Word, bigMask: Word)
    requires IsPow2(capacity) && bigMask == 2 * capacity - 2
    ensures And(x, bigMask) == 2 * ((x / 2) % capacity)
    ensures And(x, bigMask) % 2 == 0 && And(x, bigMask) <= 2 * capacity - 2
    ensures x < 2 * capacity ==> And(x, bigMask) == x - x % 2
  {
    var k := BitLength(capacity) - 1;
    assert Pow2(k) == capacity;
    AndEvenMask(x, k);
    var y := (x / 2) % capacity;
    assert And(x, bigMask) == 2 * y && y < capacity;
    if x < 2 * capacity {
      DivModUnique(x / 2, capacity, 0, x / 2);
      assert y == x / 2;
    }
  }

  /** vqueue.c:94 and 127: with `small_mask == capacity - 1` the offset is the cursor modulo the capacity. */
  lemma OffsetIsMod(x: Word, capacity: Word, smallMask: Word)
    requires IsPow2(capacity) && smallMask == capacity - 1
    ensures CursorOffset(x, smallMask) == x % capacity < capacity
  {
    AndLowMask(x, BitLength(capacity) - 1);
  }

  /** Advancing a cursor by at most `capacity` moves its offset round the ring. */
  lemma OffsetAdvance(x: Word, n: Word, capacity: Word, smallMask: Word)
    requires IsPow2(capacity) && smallMask == capacity - 1 && n <= capacity
    ensures CursorOffset(Add(x, n), smallMask) == Mirror(capacity, CursorOffset(x, smallMask) + n)
  {
    var t := CapacityDivides(capacity);
    OffsetIsMod(x, capacity, smallMask);
    OffsetIsMod(Add(x, n), capacity, smallMask);
    WrapMod(x + n, capacity, t);
    ModAdd(x, n, capacity);
    MirrorIsMod(capacity, x % capacity + n);
  }

  /** The writer's cursor is the reader's advanced by the occupancy. */
  lemma CursorDiff(rptr: Word, wptr: Word)
    ensures Add(rptr, Occupancy(rptr, wptr)) == wptr
  {
    WrapOfWrap(wptr - rptr, rptr);
    WrapInRange(wptr);
  }

  /** The writer's offset lies `Occupancy` bytes ahead of the reader's, round the ring. */
  lemma WriterOffset(rptr: Word, wptr: Word, capacity: Word, smallMask: Word)
    requires IsPow2(capacity) && smallMask == capacity - 1 && Occupancy(rptr, wptr) <= capacity
    ensures CursorOffset(wptr, smallMask)
            == Mirror(capacity, CursorOffset(rptr, smallMask) + Occupancy(rptr, wptr))
  {
    CursorDiff(rptr, wptr);
    OffsetAdvance(rptr, Occupancy(rptr, wptr), capacity, smallMask);
  }

  // ---------------------------------------------------------------------
  // Reported space against the true occupancy

  /** `rptr + capacity - wptr` is the capacity minus the occupancy, modulo 2^64. */
  lemma FreeCount(rptr: Word, wptr: Word, capacity: Word)
    ensures Sub(Add(rptr, capacity), wptr) == Wrap(capacity - Occupancy(rptr, wptr))
    ensures Occupancy(rptr, wptr) <= capacity ==>
              Sub(Add(rptr, capacity), wptr) == capacity - Occupancy(rptr, wptr)
  {
    WrapOfWrap(rptr + capacity, -(wptr as int));
    WrapSubWrap(capacity, wptr - rptr);
    assert (rptr as int) + capacity + -(wptr as int) == capacity - ((wptr as int) - rptr);
    if Occupancy(rptr, wptr) <= capacity {
      WrapInRange(capacity - Occupancy(rptr, wptr));
    }
  }

  /**
   * The readable space is even and at most 2 * capacity - 2; while the
   * occupancy is at most the capacity it is the occupancy rounded down to
   * even, so never more than what was written.
   */
  lemma ReadableSpaceBounds(rptr: Word, wptr: Word, capacity: Word, bigMask: Word)
    requires IsPow2(capacity) && bigMask == 2 * capacity - 2
    ensures var s := ReadableSpace(rptr, wptr, bigMask);
            s % 2 == 0 && s <= 2 * capacity - 2
    ensures var d := Occupancy(rptr, wptr);
            d <= capacity ==> ReadableSpace(rptr, wptr, bigMask) == d - d % 2
  {
    MaskedSpace(Sub(wptr, rptr), capacity, bigMask);
  }

  /**
   * The writable space is even and at most 2 * capacity - 2; while the
   * occupancy is at most the capacity it is the free room rounded down to
   * even, so writing that much overwrites nothing unread.
   */
  lemma WritableSpaceBounds(rptr: Word, wptr: Word, capacity: Word, bigMask: Word)
    requires IsPow2(capacity) && bigMask == 2 * capacity - 2
    ensures var s := WritableSpace(rptr, wptr, capacity, bigMask);
            s % 2 == 0 && s <= 2 * capacity - 2
    ensures var d := Occupancy(rptr, wptr);
            d <= capacity ==>
              WritableSpace(rptr, wptr, capacity, bigMask) == (capacity - d) - (capacity - d) % 2
  {
    FreeCount(rptr, wptr, capacity);
    MaskedSpace(Sub(Add(rptr, capacity), wptr), capacity, bigMask);
  }

  /**
   * Readable plus writable space: the capacity when the occupancy is even,
   * two less when it is odd (the `big_mask = small_mask << 1` of
   * vqueue.c:27 drops bit 0 of both); a capacity of 1 reports no space at all.
   */
  lemma SpaceSum(rptr: Word, wptr: Word, capacity: Word, bigMask: Word)
    requires IsPow2(capacity) && bigMask == 2 * capacity - 2
    requires Occupancy(rptr, wptr) <= capacity
    ensures var d := Occupancy(rptr, wptr);
            capacity >= 2 ==>
              ReadableSpace(rptr, wptr, bigMask) + WritableSpace(rptr, wptr, capacity, bigMask)
              == if d % 2 == 0 then capacity else capacity - 2
    ensures capacity == 1 ==>
              ReadableSpace(rptr, wptr, bigMask) == 0 && WritableSpace(rptr, wptr, capacity, bigMask) == 0
  {
    var d := Occupancy(rptr, wptr);
    ReadableSpaceBounds(rptr, wptr, capacity, bigMask);
    WritableSpaceBounds(rptr, wptr, capacity, bigMask);
    assert ReadableSpace(rptr, wptr, bigMask) == d - d % 2;
    assert WritableSpace(rptr, wptr, capacity, bigMask) == (capacity - d) - (capacity - d) % 2;
    if capacity >= 2 {
      CapacityEven(capacity);
      SameParity(capacity, d);
    }
  }

  /** An even number minus `d` has the parity of `d`. */
  lemma SameParity(c: int, d: int)
    requires c % 2 == 0
    ensures (c - d) % 2 == d % 2
  {
  }

  // ---------------------------------------------------------------------
  // Commits

  /** Advancing the writer by `n` adds `n` to the occupancy, modulo 2^64. */
  lemma AdvanceWriter(rptr: Word, wptr: Word, n: Word)
    ensures Occupancy(rptr, Add(wptr, n)) == Wrap(Occupancy(rptr, wptr) + n)
  {
    WrapOfWrap(wptr + n, -(rptr as int));
    WrapOfWrap(wptr - rptr, n);
    assert (wptr as int) + n + -(rptr as int) == (wptr as int) - rptr + n;
  }

  /** Advancing the reader by `n` takes `n` from the occupancy, modulo 2^64. */
  lemma AdvanceReader(rptr: Word, wptr: Word, n: Word)
    ensures Occupancy(Add(rptr, n), wptr) == Wrap(Occupancy(rptr, wptr) - n)
  {
    WrapSubWrap(wptr, rptr + n);
    WrapOfWrap(wptr - rptr, -(n as int));
    assert (wptr as int) - (rptr + n) == (wptr as int) - rptr + -(n as int);
  }

  /**
   * vqueue.c:108-111: committing a read of `length` (non-zero) consumes
   * exactly the committed amount when `length` is at most the occupancy;
   * the occupancy stays within the capacity if and only if `length` is at
   * most the occupancy or so large that the cursor wraps back (the end
   * function never refuses an over-long commit).
   */
  lemma ReadCommit(rptr: Word, wptr: Word, capacity: Word, bigMask: Word, length: Word)
    requires IsPow2(capacity) && bigMask == 2 * capacity - 2
    requires Occupancy(rptr, wptr) <= capacity
    ensures var d := Occupancy(rptr, wptr);
            var n := Committed(length, ReadableSpace(rptr, wptr, bigMask));
            var d' := Occupancy(Add(rptr, n), wptr);
            (length <= d ==> n <= d && d' == d - n)
            && (d' <= capacity <==> length <= d || length >= TWO64 + d - capacity)
  {
    var d := Occupancy(rptr, wptr);
    var n := Committed(length, ReadableSpace(rptr, wptr, bigMask));
    ReadableSpaceBounds(rptr, wptr, capacity, bigMask);
    AdvanceReader(rptr, wptr, n);
    if n <= d {
      WrapInRange(d - n);
    } else {
      WrapShift(d - n, 1);
      WrapInRange(d - n + TWO64);
    }
  }

  /**
   * vqueue.c:141-144: committing a write of `length` (non-zero) adds
   * exactly the committed amount when `length` fits the free room; the
   * occupancy stays within the capacity if and only if it fits or is so
   * large that the cursor wraps back (vqueue.h:35: an over-long commit
   * silently overwrites unread data).
   */
  lemma WriteCommit(rptr: Word, wptr: Word, capacity: Word, bigMask: Word, length: Word)
    requires IsPow2(capacity) && bigMask == 2 * capacity - 2
    requires Occupancy(rptr, wptr) <= capacity
    ensures var d := Occupancy(rptr, wptr);
            var n := Committed(length, WritableSpace(rptr, wptr, capacity, bigMask));
            var d' := Occupancy(rptr, Add(wptr, n));
            (length <= capacity - d ==> n <= capacity - d && d' == d + n)
            && (d' <= capacity <==> length <= capacity - d || length >= TWO64 - d)
  {
    var d := Occupancy(rptr, wptr);
    var n := Committed(length, WritableSpace(rptr, wptr, capacity, bigMask));
    WritableSpaceBounds(rptr, wptr, capacity, bigMask);
    AdvanceWriter(rptr, wptr, n);
    if d + n < TWO64 {
      WrapInRange(d + n);
    } else {
      WrapShift(d + n - TWO64, 1);
      WrapInRange(d + n - TWO64);
    }
  }

  // ---------------------------------------------------------------------
  // The unread bytes

  /**
   * Advancing the reader by `n` bytes of the `d` unread ones leaves the
   * last `d - n` of them unread.
   */
  lemma ConsumeWindow(b: seq<bv8>, rptr: Word, wptr: Word, capacity: Word, smallMask: Word, n: Word)
    requires IsPow2(capacity) && smallMask == capacity - 1 && |b| == capacity
    requires n <= Occupancy(rptr, wptr) <= capacity
    ensures Occupancy(Add(rptr, n), wptr) == Occupancy(rptr, wptr) - n
    ensures Window(b, CursorOffset(Add(rptr, n), smallMask), Occupancy(Add(rptr, n), wptr))
            == Window(b, CursorOffset(rptr, smallMask), Occupancy(rptr, wptr))[n..]
  {
    var d := Occupancy(rptr, wptr);
    AdvanceReader(rptr, wptr, n);
    WrapInRange(d - n);
    OffsetAdvance(rptr, n, capacity, smallMask);
    WindowDrop(b, CursorOffset(rptr, smallMask), d, n);
  }

  /**
   * Storing `src` at the writer's offset and advancing the writer by `m`
   * (at least `|src|`, at most the free room) appends `src` to the unread
   * bytes, followed by the `m - |src|` bytes the memory already held there.
   */
  lemma ProduceWindow(b: seq<bv8>, rptr: Word, wptr: Word, capacity: Word, smallMask: Word,
                      src: seq<bv8>, m: Word)
    requires IsPow2(capacity) && smallMask == capacity - 1 && |b| == capacity
    requires Occupancy(rptr, wptr) <= capacity && |src| <= m <= capacity - Occupancy(rptr, wptr)
    ensures Occupancy(rptr, Add(wptr, m)) == Occupancy(rptr, wptr) + m
    ensures var woff := CursorOffset(wptr, smallMask);
            Window(Store(b, woff, src), CursorOffset(rptr, smallMask), Occupancy(rptr, Add(wptr, m)))
            == Window(b, CursorOffset(rptr, smallMask), Occupancy(rptr, wptr)) + src
               + Window(b, Mirror(capacity, woff + |src|), m - |src|)
  {
    var d := Occupancy(rptr, wptr);
    AdvanceWriter(rptr, wptr, m);
    WrapInRange(d + m);
    WriterOffset(rptr, wptr, capacity, smallMask);
    WindowAfterStore(b, CursorOffset(rptr, smallMask), d, src, m);
  }

  /**
   * Advancing the writer by `m` (at most the free room) without storing
   * anything appends the `m` bytes the memory holds at the writer's offset.
   */
  lemma CommitWindow(b: seq<bv8>, rptr: Word, wptr: Word, capacity: Word, smallMask: Word, m: Word)
    requires IsPow2(capacity) && smallMask == capacity - 1 && |b| == capacity
    requires Occupancy(rptr, wptr) + m <= capacity
    ensures Occupancy(rptr, Add(wptr, m)) == Occupancy(rptr, wptr) + m
    ensures Window(b, CursorOffset(rptr, smallMask), Occupancy(rptr, Add(wptr, m)))
            == Window(b, CursorOffset(rptr, smallMask), Occupancy(rptr, wptr))
               + Window(b, CursorOffset(wptr, smallMask), m)
  {
    var d := Occupancy(rptr, wptr);
    AdvanceWriter(rptr, wptr, m);
    WrapInRange(d + m);
    WriterOffset(rptr, wptr, capacity, smallMask);
    WindowSplit(b, CursorOffset(rptr, smallMask), d, m);
  }
}
