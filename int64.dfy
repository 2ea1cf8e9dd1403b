/** Go's `int` on a 64-bit platform: two's-complement arithmetic that wraps
    around modulo 2^64, and the left shift `x << n` that discards the bits
    shifted out (so a shift by 64 or more gives 0). */
module Int64 {

  const Modulus: int := 0x1_0000_0000_0000_0000
  const MinInt64: int := -0x8000_0000_0000_0000
  const MaxInt64: int := 0x7FFF_FFFF_FFFF_FFFF

  /** The values a Go `int` can hold. */
  type Int64 = x: int | MinInt64 <= x <= MaxInt64

  /** The value an exact integer result takes once stored in a Go `int`. */
  function Wrap(x: int): (r: Int64)
    ensures (x - r) % Modulus == 0
    ensures MinInt64 <= x <= MaxInt64 ==> r == x
  {
    (x - MinInt64) % Modulus + MinInt64
  }

  /** The quotient that `Wrap` drops. */
  lemma WrapQuotient(x: int)
    ensures x == Wrap(x) + ((x - MinInt64) / Modulus) * Modulus
  {
  }

  /** Any in-range value that differs from `x` by a multiple of 2^64 is `Wrap(x)`. */
  lemma WrapUnique(x: int, r: int, q: int)
    requires MinInt64 <= r <= MaxInt64
    requires x == r + q * Modulus
    ensures Wrap(x) == r
  {
    var p := (x - MinInt64) / Modulus;
    WrapQuotient(x);
    assert (r - Wrap(x)) == (p - q) * Modulus;
  }

  /** Adding to an already-wrapped value gives the same result as adding
      exactly and wrapping once at the end. */
  lemma WrapAdd(a: int, b: int)
    ensures Wrap(Wrap(a) + b) == Wrap(a + b)
  {
    WrapQuotient(a);
    WrapQuotient(a + b);
    var q := (a - MinInt64) / Modulus;
    var p := (a + b - MinInt64) / Modulus;
    WrapUnique(Wrap(a) + b, Wrap(a + b), p - q);
  }

  /** Go's `+` on two `int`s agrees with exact addition modulo 2^64. */
  lemma WrapAddBoth(a: int, b: int)
    ensures Wrap(Wrap(a) + Wrap(b)) == Wrap(a + b)
  {
    WrapAdd(a, Wrap(b));
    WrapAdd(b, a);
  }

  function Pow2(n: nat): (r: nat)
    ensures r >= 1
  {
    if n == 0 then 1 else 2 * Pow2(n - 1)
  }

  /** Go's `x << n` on an `int`: the bits shifted past the top are lost, so
      the result is congruent to `x * 2^n` modulo 2^64, and equal to it when
      that product fits in an `int`. */
  function Shl(x: Int64, n: nat): (r: Int64)
    ensures (x * Pow2(n) - r) % Modulus == 0
    ensures MinInt64 <= x * Pow2(n) <= MaxInt64 ==> r == x * Pow2(n)
  {
    Wrap(x * Pow2(n))
  }

  lemma {:induction false} Pow2Add(a: nat, b: nat)
    ensures Pow2(a + b) == Pow2(a) * Pow2(b)
  {
    if b > 0 {
      Pow2Add(a, b - 1);
    }
  }

  /** The powers of two at the top of a 64-bit word. */
  lemma Pow2Top()
    ensures Pow2(62) == 0x4000_0000_0000_0000
    ensures Pow2(63) == 0x8000_0000_0000_0000
    ensures Pow2(64) == Modulus
  {
    assert Pow2(4) == 16;
    Pow2Add(4, 4);
    assert Pow2(8) == 0x100;
    Pow2Add(8, 8);
    assert Pow2(16) == 0x1_0000;
    Pow2Add(16, 16);
    assert Pow2(32) == 0x1_0000_0000;
    Pow2Add(32, 32);
    assert Pow2(64) == Modulus;
    assert Pow2(64) == 2 * Pow2(63);
    assert Pow2(63) == 2 * Pow2(62);
  }

  lemma {:induction false} Pow2Monotone(i: nat, j: nat)
    requires i <= j
    ensures Pow2(i) <= Pow2(j)
  {
    if i < j {
      Pow2Monotone(i, j - 1);
    }
  }

  /** Below the sign bit, `1 << n` is exactly 2^n. */
  lemma ShlOneSmall(n: nat)
    requires n < 63
    ensures Shl(1, n) == Pow2(n)
  {
    Pow2Monotone(n, 62);
    Pow2Top();
  }

  /** `1 << 63` lands on the sign bit and reads as the most negative `int`. */
  lemma ShlOneSignBit()
    ensures Shl(1, 63) == MinInt64
  {
    Pow2Top();
    WrapUnique(Pow2(63), MinInt64, 1);
  }

  lemma {:induction false} Pow2AtLeast64(n: nat)
    requires n >= 64
    ensures Pow2(n) == Modulus * Pow2(n - 64)
  {
    if n == 64 {
      Pow2Top();
    } else {
      Pow2AtLeast64(n - 1);
    }
  }

  /** Shifting 1 left by the width of `int` or more discards every bit. */
  lemma ShlOneWide(n: nat)
    requires n >= 64
    ensures Shl(1, n) == 0
  {
    Pow2AtLeast64(n);
    WrapUnique(Pow2(n), 0, Pow2(n - 64));
  }
}
