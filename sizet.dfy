/**
 * The unsigned 64-bit arithmetic the queue is built on (`size_t`, and
 * `ptrdiff_t` read as two's complement), modelled on mathematical
 * integers: a value is a natural below 2^64, every operation that can
 * leave that range is reduced modulo 2^64 explicitly, and the bitwise
 * operators are defined on binary expansions.  `TestBit` gives access to
 * single bits; two values with the same bits are equal (`BitsEqual`), so
 * every bitwise identity below is proved one bit at a time.
 */
module SizeT {

  function Pow2(n: nat): (p: nat)
    ensures p >= 1
  {
    if n == 0 then 1 else 2 * Pow2(n - 1)
  }

  /** 2^64: one more than the largest `size_t`. */
  const TWO64: nat := 0x1_0000_0000_0000_0000

  /** 2^63: the top bit of a `size_t`. */
  const TWO63: nat := 0x8000_0000_0000_0000

  type Word = x: nat | x < TWO64

  /** Reduction of an integer into `size_t` (conversion from a signed type, wrap-around of + and -). */
  function Wrap(x: int): Word
  {
    x % TWO64
  }

  function Add(a: Word, b: Word): Word { Wrap(a + b) }

  function Sub(a: Word, b: Word): Word { Wrap(a - b) }

  /** `~a` */
  function Not(a: Word): Word { TWO64 - 1 - a }

  /** `a << 1` */
  function ShiftLeft1(a: Word): (r: Word)
    ensures a < TWO63 ==> r == 2 * a
  {
    Wrap(2 * a)
  }

  /** `a >> i`: `i` halvings, rounding down. */
  function ShiftRight(a: nat, i: nat): nat
    decreases i
  {
    if i == 0 then a else ShiftRight(a / 2, i - 1)
  }

  /** `a & b` */
  function And(a: nat, b: nat): (r: nat)
    ensures r <= a && r <= b
    decreases a
  {
    if a == 0 || b == 0 then 0
    else 2 * And(a / 2, b / 2) + (if a % 2 == 1 && b % 2 == 1 then 1 else 0)
  }

  /** `a | b` */
  function Or(a: nat, b: nat): nat
    decreases a + b
  {
    if a == 0 then b
    else if b == 0 then a
    else 2 * Or(a / 2, b / 2) + (if a % 2 == 1 || b % 2 == 1 then 1 else 0)
  }

  /** Bit `n` of `x` is set. */
  predicate TestBit(x: nat, n: nat)
    decreases n
  {
    if n == 0 then x % 2 == 1 else TestBit(x / 2, n - 1)
  }

  /** Number of binary digits of `x` (0 for 0). */
  function BitLength(x: nat): nat
    decreases x
  {
    if x == 0 then 0 else 1 + BitLength(x / 2)
  }

  /** `x` is a power of two; its exponent is `BitLength(x) - 1`. */
  predicate IsPow2(x: nat)
  {
    x > 0 && x == Pow2(BitLength(x) - 1)
  }

  // ---------------------------------------------------------------------
  // Division facts

  lemma {:induction false} MulAtLeast(m: int, t: nat)
    requires m > 0 && t >= 1
    ensures m * t >= m
    decreases t
  {
    if t > 1 {
      MulAtLeast(m, t - 1);
      assert m * t == m * (t - 1) + m;
    }
  }

  /** Quotient and remainder are determined by `x == m * q + r`, `0 <= r < m`. */
  lemma DivModUnique(x: int, m: int, q: int, r: int)
    requires m > 0 && x == m * q + r && 0 <= r < m
    ensures x / m == q && x % m == r
  {
    var q0, r0 := x / m, x % m;
    assert m * q0 + r0 == x;
    assert m * (q - q0) == r0 - r;
    if q > q0 {
      MulAtLeast(m, q - q0);
    } else if q < q0 {
      MulAtLeast(m, q0 - q);
    }
  }

  /** Dividing by `2 * p` is halving, then dividing by `p`. */
  lemma DivHalf(x: nat, p: nat)
    requires p > 0
    ensures x / (2 * p) == (x / 2) / p
    ensures x % (2 * p) == 2 * ((x / 2) % p) + x % 2
  {
    var h := x / 2;
    assert h == p * (h / p) + h % p;
    assert x == (2 * p) * (h / p) + (2 * (h % p) + x % 2);
    DivModUnique(x, 2 * p, h / p, 2 * (h % p) + x % 2);
  }

  lemma {:induction false} Pow2Add(a: nat, b: nat)
    ensures Pow2(a + b) == Pow2(a) * Pow2(b)
    decreases a
  {
    if a > 0 {
      Pow2Add(a - 1, b);
      assert Pow2(a + b) == 2 * Pow2(a - 1 + b);
    }
  }

  lemma Pow2Byte()
    ensures Pow2(8) == 256
  {
    assert Pow2(2) == 4;
    Pow2Add(2, 2);
    Pow2Add(4, 4);
  }

  lemma Pow2Half()
    ensures Pow2(32) == 0x1_0000_0000
  {
    Pow2Byte();
    Pow2Add(8, 8);
    Pow2Add(16, 16);
  }

  lemma Pow2Word()
    ensures Pow2(64) == TWO64 && Pow2(63) == TWO63
  {
    Pow2Half();
    Pow2Add(32, 32);
    assert Pow2(64) == 2 * Pow2(63);
  }

  lemma {:induction false} Pow2Monotone(a: nat, b: nat)
    requires a <= b
    ensures Pow2(a) <= Pow2(b)
    decreases b
  {
    if a < b {
      Pow2Monotone(a, b - 1);
    }
  }

  // ---------------------------------------------------------------------
  // Modular reduction

  lemma WrapShift(x: int, k: int)
    ensures Wrap(x + k * TWO64) == Wrap(x)
  {
    var q, r := x / TWO64, x % TWO64;
    assert x + k * TWO64 == TWO64 * (q + k) + r;
    DivModUnique(x + k * TWO64, TWO64, q + k, r);
  }

  lemma WrapInRange(x: int)
    requires 0 <= x < TWO64
    ensures Wrap(x) == x
  {
    DivModUnique(x, TWO64, 0, x);
  }

  lemma AddZero(a: Word)
    ensures Add(a, 0) == a
  {
    WrapInRange(a);
  }

  /** Reducing an operand first does not change a reduced sum. */
  lemma WrapOfWrap(x: int, y: int)
    ensures Wrap(Wrap(x) + y) == Wrap(x + y)
  {
    var q := x / TWO64;
    assert x == TWO64 * q + Wrap(x);
    WrapShift(Wrap(x) + y, q);
    assert Wrap(x) + y + q * TWO64 == x + y;
  }

  /** Reducing the subtrahend first does not change a reduced difference. */
  lemma WrapSubWrap(x: int, y: int)
    ensures Wrap(x - Wrap(y)) == Wrap(x - y)
  {
    var q := y / TWO64;
    assert y == TWO64 * q + Wrap(y);
    assert x - Wrap(y) == (x - y) + q * TWO64;
    WrapShift(x - y, q);
  }

  /** Reduction modulo 2^64 keeps the residue modulo any divisor `c` of 2^64. */
  lemma WrapMod(x: int, c: nat, t: nat)
    requires c >= 1 && c * t == TWO64
    ensures Wrap(x) % c == x % c
  {
    var q := x / TWO64;
    var w := Wrap(x);
    assert x == TWO64 * q + w;
    assert TWO64 * q == c * (t * q);
    assert w == c * (w / c) + w % c;
    assert x == c * (t * q + w / c) + w % c;
    DivModUnique(x, c, t * q + w / c, w % c);
  }

  /** Adding after reducing modulo `c` gives the same residue. */
  lemma ModAdd(x: int, n: int, c: nat)
    requires c >= 1
    ensures (x + n) % c == (x % c + n) % c
  {
    var y := x % c + n;
    assert x == c * (x / c) + x % c;
    assert y == c * (y / c) + y % c;
    assert x + n == c * (x / c + y / c) + y % c;
    DivModUnique(x + n, c, x / c + y / c, y % c);
  }

  // ---------------------------------------------------------------------
  // Single bits

  lemma {:induction false} ZeroBits(n: nat)
    ensures !TestBit(0, n)
    decreases n
  {
    if n > 0 {
      ZeroBits(n - 1);
    }
  }

  /** Two naturals with the same bits are equal. */
  lemma {:induction false} BitsEqual(a: nat, b: nat)
    requires forall n: nat :: TestBit(a, n) == TestBit(b, n)
    ensures a == b
    decreases a + b
  {
    assert TestBit(a, 0) == TestBit(b, 0);
    if a + b != 0 {
      forall n: nat
        ensures TestBit(a / 2, n) == TestBit(b / 2, n)
      {
        assert TestBit(a, n + 1) == TestBit(b, n + 1);
      }
      BitsEqual(a / 2, b / 2);
    }
  }

  /** A natural with no bit at or above `L` is below 2^L. */
  lemma {:induction false} BitsBelow(x: nat, L: nat)
    requires forall n: nat :: TestBit(x, n) ==> n < L
    ensures x < Pow2(L)
    decreases L
  {
    if L == 0 {
      forall n: nat
        ensures TestBit(x, n) == TestBit(0, n)
      {
        ZeroBits(n);
      }
      BitsEqual(x, 0);
    } else {
      forall n: nat | TestBit(x / 2, n)
        ensures n < L - 1
      {
        assert TestBit(x, n + 1);
      }
      BitsBelow(x / 2, L - 1);
    }
  }

  /** Conversely, a natural below 2^L has no bit at or above `L`. */
  lemma {:induction false} BelowBits(x: nat, L: nat, n: nat)
    requires x < Pow2(L) && n >= L
    ensures !TestBit(x, n)
    decreases n
  {
    if n == 0 {
      assert x == 0;
    } else if L == 0 {
      assert x == 0;
      ZeroBits(n);
    } else {
      BelowBits(x / 2, L - 1, n - 1);
    }
  }

  lemma {:induction false} AndBit(a: nat, b: nat, n: nat)
    ensures TestBit(And(a, b), n) == (TestBit(a, n) && TestBit(b, n))
    decreases n
  {
    if a == 0 || b == 0 {
      ZeroBits(n);
      if a == 0 {
        ZeroBits(n);
        assert !TestBit(a, n);
      } else {
        assert !TestBit(b, n);
      }
    } else if n > 0 {
      assert And(a, b) / 2 == And(a / 2, b / 2);
      AndBit(a / 2, b / 2, n - 1);
    }
  }

  lemma {:induction false} OrBit(a: nat, b: nat, n: nat)
    ensures TestBit(Or(a, b), n) == (TestBit(a, n) || TestBit(b, n))
    decreases n
  {
    if a == 0 {
      ZeroBits(n);
    } else if b == 0 {
      ZeroBits(n);
    } else if n > 0 {
      assert Or(a, b) / 2 == Or(a / 2, b / 2);
      OrBit(a / 2, b / 2, n - 1);
    }
  }

  /** `x >> i` moves bit `n + i` to bit `n`. */
  lemma {:induction false} ShiftRightBit(x: nat, i: nat, n: nat)
    ensures TestBit(ShiftRight(x, i), n) == TestBit(x, n + i)
    decreases i
  {
    if i > 0 {
      ShiftRightBit(x / 2, i - 1, n);
    }
  }

  /** A value below 2^i shifts right by `i` to 0. */
  lemma {:induction false} ShiftRightBelow(x: nat, i: nat)
    requires x < Pow2(i)
    ensures ShiftRight(x, i) == 0
    decreases i
  {
    if i > 0 {
      ShiftRightBelow(x / 2, i - 1);
    }
  }

  /** Shifting right by `i` is dividing by 2^i. */
  lemma {:induction false} ShiftRightIsDiv(x: nat, i: nat)
    ensures ShiftRight(x, i) == x / Pow2(i)
    decreases i
  {
    if i > 0 {
      ShiftRightIsDiv(x / 2, i - 1);
      DivHalf(x, Pow2(i - 1));
    }
  }

  /** Multiplying by 2^i moves bit `n - i` to bit `n`. */
  lemma {:induction false} MulPow2Bit(a: nat, i: nat, n: nat)
    ensures TestBit(a * Pow2(i), n) == (n >= i && TestBit(a, n - i))
    decreases i
  {
    if i > 0 {
      var y := a * Pow2(i - 1);
      assert a * Pow2(i) == 2 * y;
      if n > 0 {
        assert (2 * y) / 2 == y;
        MulPow2Bit(a, i - 1, n - 1);
      }
    }
  }

  /** `x % 2^k` keeps the bits below `k`. */
  lemma {:induction false} ModPow2Bit(x: nat, k: nat, n: nat)
    ensures TestBit(x % Pow2(k), n) == (n < k && TestBit(x, n))
    decreases k
  {
    if k == 0 {
      ZeroBits(n);
    } else {
      DivHalf(x, Pow2(k - 1));
      var y := (x / 2) % Pow2(k - 1);
      assert x % Pow2(k) == 2 * y + x % 2;
      if n > 0 {
        assert (2 * y + x % 2) / 2 == y;
        ModPow2Bit(x / 2, k - 1, n - 1);
      }
    }
  }

  /** 2^k - 1 has exactly the bits below `k`. */
  lemma {:induction false} LowOnesBit(k: nat, n: nat)
    ensures TestBit(Pow2(k) - 1, n) == (n < k)
    decreases k
  {
    if k == 0 {
      ZeroBits(n);
    } else {
      assert Pow2(k) - 1 == 2 * (Pow2(k - 1) - 1) + 1;
      if n > 0 {
        LowOnesBit(k - 1, n - 1);
      }
    }
  }

  // ---------------------------------------------------------------------
  // Bit length

  lemma {:induction false} BitLengthBounds(x: nat)
    ensures x < Pow2(BitLength(x))
    ensures x > 0 ==> Pow2(BitLength(x) - 1) <= x
    ensures x > 0 ==> TestBit(x, BitLength(x) - 1)
    decreases x
  {
    if x > 0 {
      BitLengthBounds(x / 2);
    }
  }

  lemma {:induction false} BitLengthBelow(x: nat, k: nat)
    requires x < Pow2(k)
    ensures BitLength(x) <= k
    decreases k
  {
    if x > 0 {
      BitLengthBelow(x / 2, k - 1);
    }
  }

  lemma {:induction false} BitLengthPow2(k: nat)
    ensures BitLength(Pow2(k)) == k + 1
    decreases k
  {
    if k > 0 {
      BitLengthPow2(k - 1);
      assert Pow2(k) / 2 == Pow2(k - 1);
    }
  }

  lemma Pow2IsPow2(k: nat)
    ensures IsPow2(Pow2(k))
  {
    BitLengthPow2(k);
  }

  /** Every power of two below 2^64 is at most 2^63. */
  lemma WordPow2(x: Word)
    requires IsPow2(x)
    ensures BitLength(x) <= 64 && x <= TWO63
  {
    Pow2Word();
    BitLengthBelow(x, 64);
    Pow2Monotone(BitLength(x) - 1, 63);
  }

  // ---------------------------------------------------------------------
  // Masks

  /** `x & (2^k - 1)` is `x % 2^k`. */
  lemma AndLowMask(x: nat, k: nat)
    ensures And(x, Pow2(k) - 1) == x % Pow2(k)
  {
    forall n: nat
      ensures TestBit(And(x, Pow2(k) - 1), n) == TestBit(x % Pow2(k), n)
    {
      AndBit(x, Pow2(k) - 1, n);
      LowOnesBit(k, n);
      ModPow2Bit(x, k, n);
    }
    BitsEqual(And(x, Pow2(k) - 1), x % Pow2(k));
  }

  /** `x & (2^(k+1) - 2)` is `x % 2^(k+1)` with bit 0 cleared. */
  lemma AndEvenMask(x: nat, k: nat)
    ensures And(x, 2 * Pow2(k) - 2) == 2 * ((x / 2) % Pow2(k))
  {
    var y := (x / 2) % Pow2(k);
    forall n: nat
      ensures TestBit(And(x, 2 * Pow2(k) - 2), n) == TestBit(2 * y, n)
    {
      AndBit(x, 2 * Pow2(k) - 2, n);
      if n > 0 {
        assert (2 * Pow2(k) - 2) / 2 == Pow2(k) - 1;
        assert (2 * y) / 2 == y;
        LowOnesBit(k, n - 1);
        ModPow2Bit(x / 2, k, n - 1);
      }
    }
    BitsEqual(And(x, 2 * Pow2(k) - 2), 2 * y);
  }
}
