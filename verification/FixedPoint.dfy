/**
 Fixed-point arithmetic of the speex routines: 16x32 multiplication split into two 16x16 products, and
 multiply-accumulate with truncating or rounding shifts. Values are mathematical integers; every place
 where the C code stores 16 or 32 bits is either cut down explicitly or proved to fit.
 */
module FixedPoint {
  import opened Arithmetic

  type Word16 = x: int | -0x8000 <= x < 0x8000
  type Word32 = x: int | -0x8000_0000 <= x < 0x8000_0000

  predicate Fits16(x: int)
  {
    -0x8000 <= x < 0x8000
  }

  predicate Fits32(x: int)
  {
    -0x8000_0000 <= x < 0x8000_0000
  }

  /** The cast to a 16-bit word. */
  function Trunc16(x: int): (r: Word16)
    ensures r == x <==> Fits16(x)
    ensures (x - r) % 0x1_0000 == 0
  {
    (x + 0x8000) % 0x1_0000 - 0x8000
  }

  /** 2 to the power k, for the shifts the macros use. */
  function Pow2(k: nat): (q: int)
    requires 11 <= k <= 15
    ensures 2048 <= q <= 32768 && q % 2 == 0
  {
    match k case 11 => 2048 case 12 => 4096 case 13 => 8192 case 14 => 16384 case _ => 32768
  }

  lemma PowersOfTwo(k: nat)
    ensures Pow2(11) == 2048 && (11 <= k < 15 ==> Pow2(k + 1) == 2 * Pow2(k))
  {
  }

  /** Arithmetic shift right and low bits: quotient and remainder, also for negative words. */
  function Shr(x: int, q: int): int
    requires q > 0
  {
    x / q
  }

  function LowBits(x: int, q: int): (r: int)
    requires q > 0
    ensures 0 <= r < q
  {
    x % q
  }

  /** Rounding shift. */
  function Pshr(x: int, q: int): int
    requires q > 0
  {
    Shr(x + q / 2, q)
  }

  function Mult16_16(a: int, b: int): int
  {
    Trunc16(a) as int * Trunc16(b) as int
  }

  function Mult16_32_Q(a: Word16, b: Word32, k: nat): int
    requires 11 <= k <= 15
  {
    Mult16_16(a, Shr(b, Pow2(k))) + Shr(Mult16_16(a, LowBits(b, Pow2(k))), Pow2(k))
  }

  function Mult16_32_P15(a: Word16, b: Word32): int
  {
    Mult16_16(a, Shr(b, 32768)) + Pshr(Mult16_16(a, LowBits(b, 32768)), 32768)
  }

  function Mul_16_32_R15(a: Word16, bh: int, bl: int): int
  {
    Mult16_16(a, bh) + Shr(Mult16_16(a, bl), 32768)
  }

  function Mac16_16_Q13(c: int, a: Word16, b: Word16): int
  {
    c + Shr(Mult16_16(a, b), 8192)
  }

  function Mac16_16_P13(c: int, a: Word16, b: Word16): int
  {
    c + Shr(4096 + Mult16_16(a, b), 8192)
  }

  /* ---- exactness of the split ---- */

  lemma DivAddMultiple(x: int, y: int, q: int)
    requires q > 0
    ensures (x + y * q) / q == x / q + y
  {
    var z := x + y * q;
    assert z == z / q * q + z % q && x == x / q * q + x % q;
    MulGap(z / q - (x / q + y), q);
    assert (z / q - (x / q + y)) * q == z / q * q - x / q * q - y * q;
  }

  /** a*b is a times the high part, scaled up, plus a times the low part. */
  lemma SplitProduct(a: int, b: int, q: int)
    requires q > 0
    ensures a * b == a * (b % q) + a * (b / q) * q
  {
    var h, l := b / q, b % q;
    assert b == h * q + l;
    assert a * (h * q + l) == a * h * q + a * l;
  }

  lemma ProductFits(a: int, b: int)
    requires Fits16(a) && Fits16(b)
    ensures -0x4000_0000 <= a * b <= 0x4000_0000
  {
    ProductBound(a, b, 0x8000);
  }

  lemma LowFits(b: int, k: nat)
    requires 11 <= k <= 15
    ensures Trunc16(LowBits(b, Pow2(k))) == LowBits(b, Pow2(k))
  {
  }

  lemma ShiftFits(x: int, q: int)
    requires 2048 <= q && -0x4000_0000 <= x <= 0x4000_0000
    ensures -0x8_0000 <= x / q <= 0x8_0000
  {
    DivAtLeast(x, q, -0x8_0000) by { MulMonotone(2048, q, 0x8_0000); assert -0x8_0000 * q == -(q * 0x8_0000); }
    assert x == x / q * q + x % q;
    MulMonotone(2048, q, 0x8_0001);
    MulGap(x / q - 0x8_0000, q);
    assert (x / q - 0x8_0000) * q == x / q * q - 0x8_0000 * q;
  }

  /** For every 16-bit a and 32-bit b the split multiplication is floor(a*b / 2^k) exactly when the high
      part of b fits in 16 bits (or a is zero). */
  lemma SplitExactIff(a: Word16, b: Word32, k: nat)
    requires 11 <= k <= 15
    ensures Mult16_32_Q(a, b, k) == (a as int * b as int) / Pow2(k) <==> a == 0 || Fits16(Shr(b, Pow2(k)))
  {
    var q := Pow2(k);
    var h, l, t: int := b / q, b % q, Trunc16(b / q);
    LowFits(b, k);
    SplitProduct(a, b, q);
    DivAddMultiple(a as int * l, a as int * h, q);
    assert Mult16_32_Q(a, b, k) == a as int * t + (a as int * l) / q;
    ZeroProduct(a, t - h);
    assert a as int * (t - h) == a as int * t - a as int * h;
  }

  lemma ZeroProduct(x: int, y: int)
    ensures x * y == 0 <==> x == 0 || y == 0
  {
    if x != 0 && y != 0 {
      if x > 0 && y > 0 {
        assert x * y >= 1;
      }
    }
  }

  /** Then no intermediate value leaves its word. */
  lemma SplitFits(a: Word16, b: Word32, k: nat)
    requires 11 <= k <= 15
    ensures Fits32(Mult16_16(a, Shr(b, Pow2(k)))) && Fits32(Mult16_16(a, LowBits(b, Pow2(k))))
    ensures Fits32(Mult16_32_Q(a, b, k))
  {
    var q := Pow2(k);
    ProductFits(a, Trunc16(Shr(b, q)));
    ProductFits(a, Trunc16(LowBits(b, q)));
    ShiftFits(Mult16_16(a, LowBits(b, q)), q);
  }

  /** The rounding variant rounds the exact product to nearest, halves up. */
  lemma RoundedExactIff(a: Word16, b: Word32)
    ensures Mult16_32_P15(a, b) == (a as int * b as int + 16384) / 32768 <==> a == 0 || Fits16(Shr(b, 32768))
  {
    var h, l, t: int := b / 32768, b % 32768, Trunc16(b / 32768);
    LowFits(b, 15);
    SplitProduct(a, b, 32768);
    DivAddMultiple(a as int * l + 16384, a as int * h, 32768);
    assert Mult16_32_P15(a, b) == a as int * t + (a as int * l + 16384) / 32768;
    ZeroProduct(a, t - h);
    assert a as int * (t - h) == a as int * t - a as int * h;
  }

  /** Nor does any intermediate value of the rounding variant leave its word. */
  lemma RoundedFits(a: Word16, b: Word32)
    ensures Fits32(Mult16_16(a, Shr(b, 32768))) && Fits32(Mult16_16(a, LowBits(b, 32768)) + 16384)
    ensures Fits32(Mult16_32_P15(a, b))
  {
    ProductFits(a, Trunc16(Shr(b, 32768)));
    ProductFits(a, Trunc16(LowBits(b, 32768)));
    var low := Mult16_16(a, LowBits(b, 32768)) + 16384;
    assert -0x8000 <= low / 32768 <= 0x8000;
  }

  /** The variant that takes two halves is floor(a * (bh * 2^15 + bl) / 2^15) for all 16-bit halves, also for
      a negative low one; on the halves of b it is therefore the split multiplication. */
  lemma HalvesExact(a: Word16, bh: Word16, bl: Word16, b: Word32)
    ensures Mul_16_32_R15(a, bh, bl) == (a as int * (bh as int * 32768 + bl as int)) / 32768
    ensures Mul_16_32_R15(a, Shr(b, 32768), LowBits(b, 32768)) == Mult16_32_Q(a, b, 15)
  {
    var h, l := a as int * bh as int, a as int * bl as int;
    assert a as int * (bh as int * 32768 + bl as int) == l + h * 32768;
    DivAddMultiple(l, h, 32768);
  }

  /* ---- accumulated error ---- */

  datatype Tap = Tap(a: Word16, b: Word16)

  function ExactSum(taps: seq<Tap>): int
  {
    if taps == [] then 0
    else ExactSum(taps[..|taps| - 1]) + taps[|taps| - 1].a as int * taps[|taps| - 1].b as int
  }

  function AccumulateQ13(c: int, taps: seq<Tap>): int
  {
    if taps == [] then c
    else Mac16_16_Q13(AccumulateQ13(c, taps[..|taps| - 1]), taps[|taps| - 1].a, taps[|taps| - 1].b)
  }

  function AccumulateP13(c: int, taps: seq<Tap>): int
  {
    if taps == [] then c
    else Mac16_16_P13(AccumulateP13(c, taps[..|taps| - 1]), taps[|taps| - 1].a, taps[|taps| - 1].b)
  }

  /** Truncating accumulation never overshoots, and loses less than one unit per tap. */
  lemma {:induction false} TruncationError(c: int, taps: seq<Tap>)
    ensures var e := 8192 * c + ExactSum(taps) - 8192 * AccumulateQ13(c, taps);
            0 <= e <= 8191 * |taps|
  {
    if taps != [] {
      TruncationError(c, taps[..|taps| - 1]);
      var x := taps[|taps| - 1].a as int * taps[|taps| - 1].b as int;
      assert x == x / 8192 * 8192 + x % 8192;
    }
  }

  /** Rounding accumulation stays within half a unit per tap, either way. */
  lemma {:induction false} RoundingError(c: int, taps: seq<Tap>)
    ensures var e := 8192 * AccumulateP13(c, taps) - (8192 * c + ExactSum(taps));
            -4095 * |taps| <= e <= 4096 * |taps|
  {
    if taps != [] {
      RoundingError(c, taps[..|taps| - 1]);
      var x := taps[|taps| - 1].a as int * taps[|taps| - 1].b as int;
      assert 4096 + x == (4096 + x) / 8192 * 8192 + (4096 + x) % 8192;
    }
  }

  /** Up to 16383 taps cannot overflow the 32-bit accumulator started at zero, truncating or rounding, whatever
      the samples; nor does the rounded product of a tap. */
  lemma {:induction false} AccumulatorFits(taps: seq<Tap>)
    ensures -131072 * |taps| <= AccumulateQ13(0, taps) <= 131072 * |taps|
    ensures -131072 * |taps| <= AccumulateP13(0, taps) <= 131072 * |taps|
    ensures |taps| <= 16383 ==> Fits32(AccumulateQ13(0, taps)) && Fits32(AccumulateP13(0, taps))
    ensures forall tap :: tap in taps ==> Fits32(4096 + Mult16_16(tap.a, tap.b))
  {
    if taps != [] {
      AccumulatorFits(taps[..|taps| - 1]);
      var last := taps[|taps| - 1];
      ProductFits(last.a, last.b);
    }
  }
}
