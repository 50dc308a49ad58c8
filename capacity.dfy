/**
 * The size computation at the start of `vq_init`: the requested minimum
 * capacity is rounded up to a power of two by decrement, bit smearing and
 * increment, then up to a multiple of the page size, and the two masks are
 * derived from the result.
 */
module Capacity {
  import opened SizeT

  /**
   * Reference value of the rounding at vqueue.c:20-23: 2 to the bit length
   * of `m - 1`, reduced modulo 2^64 like the `size_t` it is computed in.
   */
  function NextPow2(m: Word): Word
  {
    Wrap(Pow2(BitLength(Sub(m, 1))))
  }

  /**
   * For 1 <= m <= 2^63 the rounding gives the least power of two that is at
   * least m; for 0 (where `m - 1` wraps to 2^64 - 1) and for anything above
   * 2^63 it gives 0.
   */
  lemma NextPow2IsLeast(m: Word)
    ensures m == 0 || m > TWO63 ==> NextPow2(m) == 0
    ensures 1 <= m <= TWO63 ==> IsPow2(NextPow2(m)) && m <= NextPow2(m) < 2 * m
  {
    var x := Sub(m, 1);
    var L := BitLength(x);
    Pow2Word();
    BitLengthBounds(x);
    BitLengthBelow(x, 64);
    Pow2Monotone(L, 64);
    if m == 0 || m > TWO63 {
      if m == 0 {
        DivModUnique(-1, TWO64, -1, TWO64 - 1);
      } else {
        WrapInRange(m - 1);
      }
      assert x >= TWO63;
      if L <= 63 {
        Pow2Monotone(L, 63);
      }
      assert L == 64;
    } else {
      WrapInRange(m - 1);
      BitLengthBelow(x, 63);
      Pow2Monotone(L, 63);
      WrapInRange(Pow2(L));
      Pow2IsPow2(L);
    }
  }

  /** A power of two at least m, where the rounding is below 2m, is not below the rounding. */
  lemma NextPow2Minimal(m: Word, k: nat)
    requires 1 <= m <= TWO63 && Pow2(k) >= m
    ensures Pow2(k) >= NextPow2(m)
  {
    NextPow2IsLeast(m);
    var r := NextPow2(m);
    var j := BitLength(r) - 1;
    if k < j {
      Pow2Monotone(k + 1, j);
    }
    Pow2Monotone(j, k);
  }

  /** The shift amounts the smearing loop runs through. */
  predicate SmearShift(i: nat)
  {
    i == 1 || i == 2 || i == 4 || i == 8 || i == 16 || i == 32 || i == 64
  }

  /** The loop invariant: no bit at or above `L`, and the `i` bits below `L` all set. */
  ghost predicate Smeared(m: nat, i: nat, L: nat)
  {
    (forall n: nat :: TestBit(m, n) ==> n < L) &&
    (forall n: nat :: L - i <= n < L ==> TestBit(m, n))
  }

  /** One round `m |= m >> i` doubles the run of ones below bit `L`. */
  lemma SmearStep(m: Word, i: nat, L: nat)
    requires L <= 64 && Smeared(m, i, L)
    ensures Or(m, ShiftRight(m, i)) < TWO64
    ensures Smeared(Or(m, ShiftRight(m, i)), 2 * i, L)
  {
    var m' := Or(m, ShiftRight(m, i));
    forall n: nat
      ensures TestBit(m', n) ==> n < L
      ensures L - 2 * i <= n < L ==> TestBit(m', n)
    {
      OrBit(m, ShiftRight(m, i), n);
      ShiftRightBit(m, i, n);
      if L - 2 * i <= n < L - i {
        assert TestBit(m, n + i);
      }
    }
    BitsBelow(m', L);
    Pow2Monotone(L, 64);
    Pow2Word();
  }

  /** The smeared value of `x` before the loop: its top bit is bit `BitLength(x) - 1`. */
  lemma SmearStart(x: Word)
    ensures BitLength(x) <= 64 && Smeared(x, 1, BitLength(x))
  {
    var L := BitLength(x);
    Pow2Word();
    BitLengthBounds(x);
    BitLengthBelow(x, 64);
    forall n: nat | TestBit(x, n)
      ensures n < L
    {
      if n >= L {
        BelowBits(x, L, n);
      }
    }
  }

  /** After the round with shift 32 all bits below `L` are set. */
  lemma SmearDone(m: nat, L: nat)
    requires L <= 64 && Smeared(m, 64, L)
    ensures m == Pow2(L) - 1
  {
    forall n: nat
      ensures TestBit(m, n) == TestBit(Pow2(L) - 1, n)
    {
      LowOnesBit(L, n);
    }
    BitsEqual(m, Pow2(L) - 1);
  }

  /** vqueue.c:20-23: `m--`, then `m |= m >> i` for i = 1, 2, 4, ..., 32, then `m++`. */
  method RoundUpPow2(minCapacity: Word) returns (r: Word)
    ensures r == NextPow2(minCapacity)
  {
    var m: Word := Sub(minCapacity, 1);
    ghost var L := BitLength(m);
    SmearStart(m);
    var i: Word := 1;
    while i < 64
      invariant SmearShift(i) && Smeared(m, i, L)
      decreases 64 - i
    {
      SmearStep(m, i, L);
      m := Or(m, ShiftRight(m, i));
      i := ShiftLeft1(i);
    }
    SmearDone(m, L);
    r := Add(m, 1);
  }

  /** vqueue.c:25: `(size + pageSize - 1) & ~(pageSize - 1)`. */
  function PageRound(size: Word, pageSize: Word): Word
  {
    And(Sub(Add(size, pageSize), 1), Not(Sub(pageSize, 1)))
  }

  /** `~(2^p - 1)` is the run of ones from bit `p` to bit 63. */
  lemma PageMask(p: nat)
    requires p <= 63
    ensures Pow2(p) < TWO64 && Not(Sub(Pow2(p), 1)) == (Pow2(64 - p) - 1) * Pow2(p)
  {
    Pow2Word();
    Pow2Monotone(p, 63);
    WrapInRange(Pow2(p) - 1);
    Pow2Add(p, 64 - p);
  }

  /** Clearing the bits below `p` of a `w`-bit value is rounding it down to a multiple of 2^p. */
  lemma ClearLowBits(y: nat, p: nat, w: nat)
    requires p <= w && y < Pow2(w)
    ensures And(y, (Pow2(w - p) - 1) * Pow2(p)) == ShiftRight(y, p) * Pow2(p)
  {
    var ones := Pow2(w - p) - 1;
    var q := ShiftRight(y, p);
    forall n: nat
      ensures TestBit(And(y, ones * Pow2(p)), n) == TestBit(q * Pow2(p), n)
    {
      AndBit(y, ones * Pow2(p), n);
      MulPow2Bit(ones, p, n);
      MulPow2Bit(q, p, n);
      if n >= p {
        LowOnesBit(w - p, n - p);
        ShiftRightBit(y, p, n - p);
        if n >= w {
          BelowBits(y, w, n);
        }
      }
    }
    BitsEqual(And(y, ones * Pow2(p)), q * Pow2(p));
  }

  /** `a + b - 1` computed in `size_t` when the true sum is at most 2^64. */
  lemma AddSubOne(a: Word, b: Word)
    requires 1 <= b && a + b <= TWO64
    ensures Sub(Add(a, b), 1) == a + b - 1
  {
    WrapOfWrap(a + b, -1);
    WrapInRange(a + b - 1);
  }

  /** When the sum does not wrap, the rounding is the ceiling to a multiple of the page size. */
  lemma PageRoundIsCeiling(size: Word, pageSize: Word)
    requires IsPow2(pageSize) && size + pageSize <= TWO64
    ensures PageRound(size, pageSize) == ((size + pageSize - 1) / pageSize) * pageSize
  {
    WordPow2(pageSize);
    var p := BitLength(pageSize) - 1;
    var y := size + pageSize - 1;
    AddSubOne(size, pageSize);
    PageMask(p);
    Pow2Word();
    ClearLowBits(y, p, 64);
    ShiftRightIsDiv(y, p);
  }

  /** Rounding a multiple of `m` up to a multiple of `m` leaves it unchanged. */
  lemma CeilMultiple(x: int, m: int, q: int)
    requires m >= 1 && q >= 1 && x == m * q
    ensures ((x + m - 1) / m) * m == x && x % m == 0 && m <= x
  {
    DivModUnique(x + m - 1, m, q, m - 1);
    DivModUnique(x, m, q, 0);
    MulAtLeast(m, q);
  }

  /** Rounding 2^k up to a multiple of 2^p gives 2^max(k, p): for p <= k it leaves 2^k unchanged. */
  lemma CeilPow2Above(k: nat, p: nat)
    requires p <= k
    ensures ((Pow2(k) + Pow2(p) - 1) / Pow2(p)) * Pow2(p) == Pow2(k)
    ensures Pow2(k) % Pow2(p) == 0 && Pow2(p) <= Pow2(k)
  {
    Pow2Add(p, k - p);
    assert p + (k - p) == k;
    CeilMultiple(Pow2(k), Pow2(p), Pow2(k - p));
  }

  /** For k < p the rounding of 2^k gives 2^p. */
  lemma CeilPow2Below(k: nat, p: nat)
    requires k < p
    ensures ((Pow2(k) + Pow2(p) - 1) / Pow2(p)) * Pow2(p) == Pow2(p)
    ensures Pow2(p) % Pow2(p) == 0 && Pow2(k) <= Pow2(p)
  {
    Pow2Monotone(k, p);
    assert Pow2(k) + Pow2(p) - 1 == Pow2(p) * 1 + (Pow2(k) - 1);
    DivModUnique(Pow2(k) + Pow2(p) - 1, Pow2(p), 1, Pow2(k) - 1);
    DivModUnique(Pow2(p), Pow2(p), 1, 0);
  }

  /** A size of 0 rounds to 0. */
  lemma PageRoundZero(pageSize: Word)
    requires IsPow2(pageSize)
    ensures PageRound(0, pageSize) == 0
  {
    WordPow2(pageSize);
    var p := BitLength(pageSize) - 1;
    assert Pow2(p) == pageSize;
    AddSubOne(0, pageSize);
    PageMask(p);
    var mask := (Pow2(64 - p) - 1) * Pow2(p);
    assert Not(Sub(pageSize, 1)) == mask;
    Pow2Word();
    ClearLowBits(pageSize - 1, p, 64);
    ShiftRightBelow(pageSize - 1, p);
    assert And(pageSize - 1, mask) == 0 * Pow2(p);
  }

  /**
   * For a page size 2^p and a size 2^k the rounding gives 2^max(k, p): a
   * power of two, a multiple of the page size, and at least both.
   */
  lemma PageRoundPow2(size: Word, pageSize: Word)
    requires IsPow2(pageSize) && IsPow2(size)
    ensures var c := PageRound(size, pageSize);
            IsPow2(c) && c % pageSize == 0 && (c == size || c == pageSize)
            && c >= size && c >= pageSize
  {
    WordPow2(pageSize);
    WordPow2(size);
    var p := BitLength(pageSize) - 1;
    var k := BitLength(size) - 1;
    assert Pow2(p) == pageSize && Pow2(k) == size;
    var c := PageRound(size, pageSize);
    PageRoundIsCeiling(size, pageSize);
    assert c == ((Pow2(k) + Pow2(p) - 1) / Pow2(p)) * Pow2(p);
    if k >= p {
      CeilPow2Above(k, p);
      assert c == size;
    } else {
      CeilPow2Below(k, p);
      assert c == pageSize;
    }
  }

  /**
   * vqueue.c:20-27: the capacity and the two masks `vq_init` stores.  The
   * big mask is `small_mask << 1`, so 2 * capacity - 2, not 2 * capacity - 1.
   */
  method Layout(minCapacity: Word, pageSize: Word) returns (capacity: Word, smallMask: Word, bigMask: Word)
    ensures capacity == PageRound(NextPow2(minCapacity), pageSize)
    ensures IsPow2(capacity) ==> smallMask == capacity - 1 && bigMask == 2 * capacity - 2
  {
    var rounded := RoundUpPow2(minCapacity);
    capacity := PageRound(rounded, pageSize);
    smallMask := Sub(capacity, 1);
    bigMask := ShiftLeft1(smallMask);
    if IsPow2(capacity) {
      Masks(capacity);
    }
  }

  /** For a power-of-two capacity `capacity - 1` and `(capacity - 1) << 1` do not wrap. */
  lemma Masks(capacity: Word)
    requires IsPow2(capacity)
    ensures Sub(capacity, 1) == capacity - 1 && ShiftLeft1(Sub(capacity, 1)) == 2 * capacity - 2
  {
    WordPow2(capacity);
    WrapInRange(capacity - 1);
  }

  /**
   * What `vq_init` ends up with for a power-of-two page size: for
   * 1 <= m <= 2^63 a power of two that is a multiple of the page size and
   * at least m, and that is either the page size or below 2m; for 0 and
   * above 2^63 a capacity of 0.
   */
  lemma LayoutCapacity(m: Word, pageSize: Word)
    requires IsPow2(pageSize)
    ensures m == 0 || m > TWO63 ==> PageRound(NextPow2(m), pageSize) == 0
    ensures 1 <= m <= TWO63 ==>
              var c := PageRound(NextPow2(m), pageSize);
              IsPow2(c) && c % pageSize == 0 && m <= c && pageSize <= c
              && (c < 2 * m || c == pageSize)
  {
    NextPow2IsLeast(m);
    if NextPow2(m) == 0 {
      PageRoundZero(pageSize);
    } else {
      PageRoundPow2(NextPow2(m), pageSize);
    }
  }
}
