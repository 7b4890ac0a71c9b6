/** The linear congruential generator of java.util.Random, as the C++ class
    JavaRandom emulates it with int64_t arithmetic: a 48-bit seed, a scrambled
    setSeed, next(bits) and nextInt(bound). */
module Random {
  import opened Arith
  import opened Wrappers

  const MULTIPLIER: int := 0x5DEECE66D
  const ADDEND: int := 0xB
  const TWO48: int := 0x1_0000_0000_0000
  const TWO64: int := 0x1_0000_0000_0000_0000

  /** Bitwise exclusive or of the low n bits of a and b. */
  function XorBits(a: nat, b: nat, n: nat): (x: nat)
    ensures x < Pow2(n)
  {
    if n == 0 then 0 else (a % 2 + b % 2) % 2 + 2 * XorBits(a / 2, b / 2, n - 1)
  }

  /** Exclusive or with the same b twice gives back the low n bits of a. */
  lemma {:induction false} XorTwice(a: nat, b: nat, n: nat)
    requires a < Pow2(n)
    ensures XorBits(XorBits(a, b, n), b, n) == a
  {
    if n > 0 {
      var t := XorBits(a / 2, b / 2, n - 1);
      var x0 := (a % 2 + b % 2) % 2;
      LowBitSplit(x0, t);
      HalfBelow(a, n);
      XorTwice(a / 2, b / 2, n - 1);
      BitCancel(a % 2, b % 2);
    }
  }

  lemma LowBitSplit(x0: nat, t: nat)
    requires x0 < 2
    ensures (x0 + 2 * t) / 2 == t && (x0 + 2 * t) % 2 == x0
  {
    DivModUnique(t, x0, 2);
  }

  lemma HalfBelow(a: nat, n: nat)
    requires n > 0 && a < Pow2(n)
    ensures a / 2 < Pow2(n - 1) && a == 2 * (a / 2) + a % 2
  {
    DivBelow(a, 2, Pow2(n - 1));
  }

  lemma BitCancel(a0: int, b0: int)
    requires 0 <= a0 < 2 && 0 <= b0 < 2
    ensures ((a0 + b0) % 2 + b0) % 2 == a0
  {
  }

  /** setSeed's new seed: newseed ^ 0x5DEECE66D masked to its low 48 bits. The
      mask leaves only the low 48 bits of newseed, which in two's complement are
      newseed mod 2^48. */
  function Scramble(newseed: int64): (s: int64)
    ensures 0 <= s as int < TWO48
  {
    Pow2Values();
    XorBits(newseed as int % TWO48, MULTIPLIER, 48) as int64
  }

  /** Scrambling is its own inverse on 48-bit seeds, so setSeed loses nothing
      of a seed that fits in 48 bits. */
  lemma ScrambleTwice(x: int64)
    requires 0 <= x as int < TWO48
    ensures Scramble(Scramble(x)) == x
  {
    var y := Scramble(x);
    ScrambleValue(x);
    ScrambleValue(y);
    Pow2Values();
    XorTwice(x as int, MULTIPLIER, 48);
  }

  /** On a 48-bit seed the mask before the exclusive or changes nothing. */
  lemma ScrambleValue(x: int64)
    requires 0 <= x as int < TWO48
    ensures Scramble(x) as int == XorBits(x as int, MULTIPLIER, 48)
  {
    DivModUnique(0, x as int, TWO48);
  }

  /** Numbers that agree modulo 2^64 agree modulo 2^48. */
  lemma WrapKeepsLow48(x: int, y: int)
    requires x % TWO64 == y % TWO64
    ensures x % TWO48 == y % TWO48
  {
    DivModSplit(x, TWO64);
    DivModSplit(y, TWO64);
    var r := x % TWO64;
    assert x == ((x / TWO64) * 0x1_0000) * TWO48 + r;
    assert y == ((y / TWO64) * 0x1_0000) * TWO48 + r;
    ModAddMultiple((x / TWO64) * 0x1_0000, r, TWO48);
    ModAddMultiple((y / TWO64) * 0x1_0000, r, TWO48);
  }

  /** next's seed update. The int64 product and sum wrap around (two's
      complement), and the mask keeps the low 48 bits of the wrapped value. */
  function NextSeed(s: int64): (n: int64)
    ensures 0 <= n as int < TWO48
    ensures n as int == (s as int * MULTIPLIER + ADDEND) % TWO48
  {
    var exact := s as int * MULTIPLIER + ADDEND;
    var wrapped := ToInt64(exact);
    WrapKeepsLow48(wrapped as int, exact);
    (wrapped as int % TWO48) as int64
  }

  /** next's result: the 48-bit seed shifted right by 48 - bits, narrowed to int32. */
  function Output(s: int64, bits: int64): (r: int32)
    requires 0 <= s as int < TWO48
    requires -15 <= bits <= 48
    ensures bits <= 0 ==> r == 0
    ensures 1 <= bits <= 31 ==> 0 <= r as int < Pow2(bits as nat)
  {
    var q := s as int / Pow2((48 - bits) as nat);
    ShiftRange(s as int, bits as int);
    ToInt32(q)
  }

  lemma ShiftRange(s: int, bits: int)
    requires 0 <= s < TWO48 && -15 <= bits <= 48
    ensures bits <= 0 ==> s / Pow2((48 - bits) as nat) == 0
    ensures 1 <= bits <= 31 ==> 0 <= s / Pow2((48 - bits) as nat) < Pow2(bits as nat) <= 0x8000_0000
  {
    Pow2Values();
    if bits <= 0 {
      Pow2Mono(48, (48 - bits) as nat);
      DivBelow(s, Pow2((48 - bits) as nat), 1);
    } else if bits <= 31 {
      Pow2Add((48 - bits) as nat, bits as nat);
      DivBelow(s, Pow2((48 - bits) as nat), Pow2(bits as nat));
      Pow2Mono(bits as nat, 31);
    }
  }

  /** next(k) is the top k bits of next(31). */
  lemma OutputPrefix(s: int64, k: nat)
    requires 0 <= s as int < TWO48
    requires 1 <= k <= 31
    ensures Output(s, k as int64) as int == Output(s, 31) as int / Pow2(31 - k)
  {
    OutputValue(s, k as int64);
    OutputValue(s, 31);
    ShiftTwice(s as int, 17, 31 - k);
  }

  lemma ShiftTwice(x: int, a: nat, b: nat)
    requires x >= 0
    ensures (x / Pow2(a)) / Pow2(b) == x / Pow2(a + b)
  {
    Pow2Add(a, b);
    DivDiv(x, Pow2(a), Pow2(b));
  }

  /** For 1 <= bits <= 31 the shifted seed fits in int32: no narrowing happens. */
  lemma OutputValue(s: int64, bits: int64)
    requires 0 <= s as int < TWO48
    requires 1 <= bits <= 31
    ensures Output(s, bits) as int == s as int / Pow2((48 - bits) as nat)
  {
    ShiftRange(s as int, bits as int);
  }

  /** The lowest set bit of n, which n & -n isolates in two's complement: the
      power of two that divides n and leaves an odd quotient. */
  function LowBit(n: nat): (b: nat)
    ensures b <= n
    ensures n > 0 ==> b >= 1 && IsPowerOfTwo(b) && n % b == 0 && (n / b) % 2 == 1
  {
    if n == 0 then 0
    else if n % 2 == 1 then assert 1 == Pow2(0); 1
    else
      var h := LowBit(n / 2);
      DivDiv(n, 2, h);
      DoublePowerOfTwo(h);
      DoubleDivides(n, h);
      2 * h
  }

  /** Twice a power of two is a power of two. */
  lemma DoublePowerOfTwo(h: nat)
    requires IsPowerOfTwo(h)
    ensures IsPowerOfTwo(2 * h)
  {
    var k: nat :| h == Pow2(k);
    assert 2 * h == Pow2(k + 1);
  }

  /** If h divides n / 2 for an even n, then 2 * h divides n. */
  lemma DoubleDivides(n: nat, h: nat)
    requires n % 2 == 0 && h > 0 && (n / 2) % h == 0
    ensures n % (2 * h) == 0
  {
    var m := (n / 2) / h;
    assert n / 2 == m * h;
    assert n == m * (2 * h);
    DivModUnique(m, 0, 2 * h);
  }

  /** nextInt's test (bound & -bound) == bound holds exactly for 0 and the powers of two. */
  lemma {:induction false} LowBitTest(n: nat)
    ensures LowBit(n) == n <==> n == 0 || IsPowerOfTwo(n)
  {
    if n > 0 && n % 2 == 0 {
      LowBitTest(n / 2);
      if LowBit(n) == n {
        var k: nat :| n / 2 == Pow2(k);
        assert n == Pow2(k + 1);
      }
      if IsPowerOfTwo(n) {
        var k: nat :| n == Pow2(k);
        assert k > 0;
        assert n / 2 == Pow2(k - 1);
      }
    } else if n % 2 == 1 {
      if n == 1 {
        assert n == Pow2(0);
      }
    }
  }

  /** The int64 product bound * next(31) and its shift by 31, for a bound up to 2^31. */
  lemma ProductRange(b: int, d: int)
    requires 0 <= b < 0x8000_0000 && 0 <= d
    ensures d <= 0x8000_0000 ==> 0 <= d * b < 0x4000_0000_0000_0000
    ensures d <= 0x8000_0000 ==> 0 <= (d * b) / 0x8000_0000 && (d == 0 || (d * b) / 0x8000_0000 < d)
  {
    if d <= 0x8000_0000 {
      MulLe(0, b, d);
      MulLe(b, 0x7FFF_FFFF, d);
      MulLe(d, 0x8000_0000, 0x7FFF_FFFF);
      if d > 0 {
        DivBelow(d * b, 0x8000_0000, d);
      }
    }
  }

  /** The value nextInt(bound) returns once its one call of next(31) has moved
      the seed to s. Branches on the power-of-two test, as nextInt does; the
      shift by 31 of the int64 product is a floor division by 2^31. */
  function Bounded(s: int64, bound: int64): (r: int32)
    requires 0 <= s as int < TWO48 && bound >= 0
    ensures bound == 0 ==> r == 0
    ensures 0 < bound as int <= 0x8000_0000 ==> 0 <= r as int < bound as int
    ensures 0 < bound && LowBit(bound as nat) != bound as int ==> 0 <= r as int < bound as int
  {
    var bits := Output(s, 31);
    if LowBit(bound as nat) == bound as int then
      ProductRange(bits as int, bound as int);
      ToInt32(ToInt64(bound as int * bits as int) as int / 0x8000_0000)
    else
      ModAtMost(bits as int, bound as int);
      ToInt32(bits as int % bound as int)
  }

  /** Multiplying by 2^k and shifting right by 31 is shifting right by 31 - k. */
  lemma PowerShift(b: int, k: nat)
    requires 0 <= b && k <= 31
    ensures (Pow2(k) * b) / 0x8000_0000 == b / Pow2(31 - k)
  {
    Pow2Values();
    Pow2Add(k, 31 - k);
    MulDivCancel(b, Pow2(k), Pow2(31 - k));
    assert Pow2(k) * b == b * Pow2(k);
  }

  /** For bound = 2^k with 1 <= k <= 31, nextInt(bound) is the top k bits of
      the seed, that is next(k); nextInt(1) is 0. */
  lemma BoundedPowerOfTwo(s: int64, k: nat)
    requires 0 <= s as int < TWO48 && k <= 31
    ensures Pow2(k) <= 0x8000_0000
    ensures k >= 1 ==> Bounded(s, Pow2(k) as int64) == Output(s, k as int64)
    ensures k == 0 ==> Bounded(s, 1) == 0
  {
    Pow2Values();
    Pow2Mono(k, 31);
    var bound := Pow2(k);
    assert IsPowerOfTwo(bound);
    LowBitTest(bound);
    var bits := Output(s, 31);
    ProductRange(bits as int, bound);
    PowerShift(bits as int, k);
    if k >= 1 {
      OutputPrefix(s, k);
    }
  }

  /** nextInt's retry test as the C++ writes it: int32 bits and val with an
      int64 bound, so the sum is formed in int64. */
  predicate RetryAsWritten(bits: int32, val: int32, bound: int64)
    ensures 0 <= val <= bits && bound >= 1 ==> !RetryAsWritten(bits, val, bound)
  {
    (bits as int - val as int) + (bound as int - 1) < 0
  }

  /** java.util.Random's retry test, on Java ints: the sum wraps at 32 bits. */
  predicate RetryJava(bits: int32, val: int32, bound: int64)
    ensures 0 <= (bits as int - val as int) + (bound as int - 1) < 0x1_0000_0000 ==>
              (RetryJava(bits, val, bound) <==> (bits as int - val as int) + (bound as int - 1) >= 0x8000_0000)
  {
    ToInt32((bits as int - val as int) + (bound as int - 1)) < 0
  }

  /** For bound >= 1 the do-while of nextInt never repeats as written: the
      int64 sum of non-negative parts is never negative. */
  lemma RetryAsWrittenNever(bits: int32, bound: int64)
    requires 0 <= bits && bound > 0
    ensures !RetryAsWritten(bits, ToInt32(bits as int % bound as int), bound)
  {
    ModAtMost(bits as int, bound as int);
    DivModNat(bits as int, bound as int);
  }

  /** Java's test rejects exactly the draws at or past the last whole multiple
      of bound below 2^31, so every residue stays equally likely. */
  lemma RetryJavaExact(bits: int32, bound: int64)
    requires 0 <= bits && 0 < bound as int <= INT32_MAX
    ensures RetryJava(bits, ToInt32(bits as int % bound as int), bound)
            <==> bits as int >= (0x8000_0000 / bound as int) * bound as int
  {
    var b, d := bits as int, bound as int;
    ModAtMost(b, d);
    DivModNat(b, d);
    assert ToInt32(b % d) as int == b % d;
    assert b - b % d == (b / d) * d;
    LastWholeMultiple(b, d);
    Int32Sign((b / d) * d + d - 1);
  }

  /** A value in [0, 2^32) is negative as an int32 exactly from 2^31 on. */
  lemma Int32Sign(v: int)
    requires 0 <= v < 0x1_0000_0000
    ensures ToInt32(v) < 0 <==> v >= 0x8000_0000
  {
  }

  /** The multiple of d just past b crosses 2^31 exactly when b is at or past
      the last multiple of d below 2^31. */
  lemma LastWholeMultiple(b: int, d: int)
    requires 0 <= b < 0x8000_0000 && 0 < d < 0x8000_0000
    ensures 0 <= (b / d) * d <= b
    ensures (b / d) * d + d - 1 >= 0x8000_0000 <==> b >= (0x8000_0000 / d) * d
  {
    var q, m := b / d, 0x8000_0000 / d;
    DivModNat(b, d);
    DivModNat(0x8000_0000, d);
    assert (q + 1) * d == q * d + d;
    assert (m + 1) * d == m * d + d;
    if b >= m * d {
      if q < m {
        MulLe(q + 1, m, d);
      }
      MulLe(m + 1, q + 1, d);
    } else {
      if q >= m {
        MulLe(m, q, d);
      }
      MulLe(q + 1, m, d);
    }
  }

  /** The input that separates the two: for nextInt(10), the draw 2147483647
      is rejected by Java and kept as written. */
  lemma RetryDiffers()
    ensures ToInt32(0x7FFF_FFFF % 10) == 7
    ensures !RetryAsWritten(0x7FFF_FFFF, 7, 10)
    ensures RetryJava(0x7FFF_FFFF, 7, 10)
  {
  }

  class JavaRandom {
    /** The generator state; setSeed and next keep it in [0, 2^48). */
    var seed: int64

    predicate Valid()
      reads this
    {
      0 <= seed as int < TWO48
    }

    /** The implicit default constructor: seed is left as allocated. */
    constructor()
    {
    }

    method SetSeed(newseed: int64)
      modifies this
      ensures seed == Scramble(newseed)
      ensures Valid()
    {
      seed := Scramble(newseed);
    }

    /** next(bits): advances the seed once and returns its top bits. The shift
        by 48 - bits is defined in C++ only below 64, hence bits >= -15. */
    method Next(bits: int64) returns (r: int32)
      requires -15 <= bits <= 48
      modifies this
      ensures seed == NextSeed(old(seed))
      ensures Valid()
      ensures r == Output(seed, bits)
    {
      seed := NextSeed(seed);
      var ret := seed as int / Pow2((48 - bits) as nat);
      r := ToInt32(ret);
    }

    /** nextInt(bound) for a non-negative bound: one call of next(31) in either
        branch. Bound 0 takes the power-of-two branch, and for bound >= 1 the
        retry test of the do-while is never true. */
    method NextInt(bound: int64) returns (r: int32)
      requires bound >= 0
      modifies this
      ensures seed == NextSeed(old(seed))
      ensures Valid()
      ensures r == Bounded(seed, bound)
    {
      if LowBit(bound as nat) == bound as int {
        var n := Next(31);
        // (bound * next(31)) >> 31 on int64, then narrowed to the int32 result
        r := ToInt32(ToInt64(bound as int * n as int) as int / 0x8000_0000);
        return;
      }
      var bits := Next(31);
      var val := ToInt32(bits as int % bound as int);
      RetryAsWrittenNever(bits, bound);
      // The do-while exits after this first pass.
      assert !RetryAsWritten(bits, val, bound);
      r := val;
    }

    /** nextInt with java.util.Random's int32 retry test, drawing at most
        maxDraws times. */
    method NextIntJava(bound: int64, maxDraws: nat) returns (r: Option<int32>)
      requires 0 < bound as int <= INT32_MAX && LowBit(bound as nat) != bound as int
      modifies this
      ensures r.Some? ==> 0 <= r.value as int < bound as int
      ensures r.Some? ==> Valid() && (0x8000_0000 / bound as int) * bound as int > Output(seed, 31) as int
      ensures r.Some? ==> r.value as int == Output(seed, 31) as int % bound as int
    {
      var draws := 0;
      r := None;
      while draws < maxDraws
        invariant draws <= maxDraws
        invariant r == None
        decreases maxDraws - draws
      {
        var bits := Next(31);
        var val := ToInt32(bits as int % bound as int);
        draws := draws + 1;
        RetryJavaExact(bits, bound);
        if !RetryJava(bits, val, bound) {
          r := Some(val);
          return;
        }
      }
    }
  }
}
