/** Integer facts shared by the models: Euclidean division, integer ceiling,
    powers of two and the fixed-width integer types of the C++ source. */
module Arith {

  newtype int32 = x: int | -0x8000_0000 <= x < 0x8000_0000
  newtype int64 = x: int | -0x8000_0000_0000_0000 <= x < 0x8000_0000_0000_0000

  const INT32_MAX: int := 0x7FFF_FFFF

  /** Two's-complement narrowing of an integer to 32 bits, as a C++ cast to int32_t does. */
  function ToInt32(x: int): (r: int32)
    ensures r as int % 0x1_0000_0000 == x % 0x1_0000_0000
    ensures -0x8000_0000 <= x < 0x8000_0000 ==> r as int == x
  {
    var m := x % 0x1_0000_0000;
    if m < 0x8000_0000 then m as int32 else (m - 0x1_0000_0000) as int32
  }

  /** Two's-complement wrap-around of an integer to 64 bits. */
  function ToInt64(x: int): (r: int64)
    ensures r as int % 0x1_0000_0000_0000_0000 == x % 0x1_0000_0000_0000_0000
    ensures -0x8000_0000_0000_0000 <= x < 0x8000_0000_0000_0000 ==> r as int == x
  {
    var m := x % 0x1_0000_0000_0000_0000;
    if m < 0x8000_0000_0000_0000 then m as int64 else (m - 0x1_0000_0000_0000_0000) as int64
  }

  /** Division with a known quotient and remainder gives back that quotient and remainder. */
  lemma DivModUnique(q: int, r: int, d: int)
    requires d > 0 && 0 <= r < d
    ensures (q * d + r) / d == q
    ensures (q * d + r) % d == r
  {
    var a := q * d + r;
    var q', r' := a / d, a % d;
    assert a == q' * d + r';
    assert (q - q') * d == r' - r;
    MulSign(q - q', d);
  }

  lemma MulSign(k: int, d: int)
    requires d > 0
    ensures k >= 1 ==> k * d >= d
    ensures k <= -1 ==> k * d <= -d
  {
    if k >= 1 {
      MulLe(1, k, d);
    } else if k <= -1 {
      MulLe(k, -1, d);
    }
  }

  lemma DivModSplit(x: int, d: int)
    requires d > 0
    ensures (x / d) * d + x % d == x
    ensures 0 <= x % d < d
  {
  }

  /** Quotient and remainder of a non-negative x by a positive d. */
  lemma DivModNat(x: int, d: int)
    requires x >= 0 && d > 0
    ensures x == (x / d) * d + x % d
    ensures x / d >= 0 && 0 <= x % d < d
  {
  }

  lemma MulAssoc(a: int, b: int, c: int)
    ensures (a * b) * c == a * (b * c)
  {
  }

  lemma MulLe(a: int, b: int, d: int)
    requires a <= b && d >= 0
    ensures a * d <= b * d
  {
    assert b * d - a * d == (b - a) * d;
  }

  /** Integer ceiling of n / d: the least multiple count of d covering n. */
  function CeilDiv(n: nat, d: int): (c: nat)
    requires d > 0
    ensures c * d >= n
    ensures c == 0 || (c - 1) * d < n
  {
    var c := (n + d - 1) / d;
    DivModUnique(c, (n + d - 1) % d, d);
    assert (c - 1) * d == c * d - d;
    c
  }

  /** Every column index below n falls into one of the CeilDiv(n, d) groups of d. */
  lemma CeilDivCovers(x: nat, n: nat, d: int)
    requires d > 0 && x < n
    ensures 0 <= x / d < CeilDiv(n, d)
  {
    var c := CeilDiv(n, d);
    assert x == (x / d) * d + x % d;
  }

  /** When the division is exact, the ceiling is the quotient. */
  lemma CeilDivExact(n: nat, d: int)
    requires d > 0 && n % d == 0
    ensures CeilDiv(n, d) == n / d
  {
    var q := n / d;
    assert n == q * d;
    DivModUnique(q, d - 1, d);
    assert n + d - 1 == q * d + (d - 1);
  }

  /** When the division is not exact, the ceiling is one past the quotient. */
  lemma CeilDivInexact(n: nat, d: int)
    requires d > 0 && n % d != 0
    ensures CeilDiv(n, d) == n / d + 1
  {
    var q, r := n / d, n % d;
    assert n + d - 1 == (q + 1) * d + (r - 1);
    DivModUnique(q + 1, r - 1, d);
  }

  /** A multiple of d is its quotient times d. */
  lemma ExactDiv(y: int, d: int)
    requires d > 0 && y % d == 0
    ensures (y / d) * d == y
  {
    DivModSplit(y, d);
  }

  /** Facts about moving from row y to row y + 1 in bands of d rows. */
  lemma NextRow(y: nat, d: int)
    requires d > 0
    ensures (y + 1) % d == 0 ==> (y + 1) / d == y / d + 1 && y + 1 == (y / d) * d + d
    ensures (y + 1) % d != 0 ==> (y + 1) / d == y / d && (y + 1) % d == y % d + 1
  {
    var q, r := y / d, y % d;
    assert y == q * d + r;
    if r + 1 < d {
      assert y + 1 == q * d + (r + 1);
      DivModUnique(q, r + 1, d);
    } else {
      assert y + 1 == (q + 1) * d + 0;
      DivModUnique(q + 1, 0, d);
    }
  }

  function Pow2(n: nat): (p: nat)
    ensures p >= 1
  {
    if n == 0 then 1 else 2 * Pow2(n - 1)
  }

  lemma {:induction false} Pow2Add(a: nat, b: nat)
    ensures Pow2(a + b) == Pow2(a) * Pow2(b)
  {
    if a > 0 {
      Pow2Add(a - 1, b);
      assert Pow2(a + b) == 2 * Pow2(a - 1 + b);
    }
  }

  lemma {:induction false} Pow2Mono(a: nat, b: nat)
    requires a <= b
    ensures Pow2(a) <= Pow2(b)
  {
    Pow2Add(a, b - a);
    MulLe(1, Pow2(b - a), Pow2(a));
  }

  /** The powers of two that the 32-bit, 48-bit and 64-bit arithmetic of the source uses. */
  lemma Pow2Values()
    ensures Pow2(16) == 0x1_0000 && Pow2(17) == 0x2_0000
    ensures Pow2(31) == 0x8000_0000 && Pow2(32) == 0x1_0000_0000
    ensures Pow2(48) == 0x1_0000_0000_0000
  {
    assert Pow2(2) == 4;
    Pow2Add(2, 2);
    assert Pow2(4) == 16;
    Pow2Add(4, 4);
    assert Pow2(8) == 256;
    Pow2Add(8, 8);
    assert Pow2(16) == 0x1_0000;
    Pow2Add(16, 16);
    assert Pow2(32) == 0x1_0000_0000;
    Pow2Add(32, 16);
    assert Pow2(17) == 2 * Pow2(16);
    assert Pow2(32) == 2 * Pow2(31);
  }

  /** Adding a multiple of d does not change the remainder by d. */
  lemma ModAddMultiple(a: int, r: int, d: int)
    requires d > 0
    ensures (a * d + r) % d == r % d
  {
    DivModSplit(r, d);
    assert a * d + r == (a + r / d) * d + r % d;
    DivModUnique(a + r / d, r % d, d);
  }

  /** Dividing by a and then by b is dividing by a * b (floor division, any sign of x). */
  lemma DivDiv(x: int, a: int, b: int)
    requires a > 0 && b > 0
    ensures (x / a) / b == x / (a * b)
  {
    var q1, r1 := x / a, x % a;
    var q2, r2 := q1 / b, q1 % b;
    DivModSplit(x, a);
    DivModSplit(q1, b);
    MulLe(r2, b - 1, a);
    MulLe(0, r2, a);
    assert x == q2 * (a * b) + (r2 * a + r1);
    DivModUnique(q2, r2 * a + r1, a * b);
  }

  /** A common factor c cancels from (q * c) / (c * d). */
  lemma MulDivCancel(q: int, c: int, d: int)
    requires q >= 0 && c > 0 && d > 0
    ensures (q * c) / (c * d) == q / d
  {
    var t, u := q / d, q % d;
    DivModNat(q, d);
    MulLe(u, d - 1, c);
    assert q * c == t * (c * d) + u * c;
    DivModUnique(t, u * c, c * d);
  }

  /** The remainder of a non-negative x is at most x. */
  lemma ModAtMost(x: int, d: int)
    requires x >= 0 && d > 0
    ensures 0 <= x % d <= x
  {
    if x < d {
      DivModUnique(0, x, d);
    }
  }

  /** A quotient of something below a * b by a stays below b. */
  lemma DivBelow(x: int, a: int, b: int)
    requires 0 <= x < a * b && a > 0
    ensures 0 <= x / a < b
  {
    DivModNat(x, a);
    if x / a >= b {
      MulLe(b, x / a, a);
    }
  }

  /** Masking to the low a * b and dividing by a is dividing by a and masking to the low b. */
  lemma ModDiv(x: int, a: int, b: int)
    requires a > 0 && b > 0
    ensures (x % (a * b)) / a == (x / a) % b
  {
    var q, r := x / (a * b), x % (a * b);
    DivModSplit(x, a * b);
    DivModNat(r, a);
    DivBelow(r, a, b);
    assert x == (q * b + r / a) * a + r % a;
    DivModUnique(q * b + r / a, r % a, a);
    DivModUnique(q, r / a, b);
  }

  /** True when n is 2^k for some k. */
  ghost predicate IsPowerOfTwo(n: int) {
    exists k: nat :: n == Pow2(k)
  }
}
