/** Nonlinear facts used by several models. */
module Arithmetic {

  const TWO31 := 0x8000_0000
  const TWO32 := 0x1_0000_0000

  /** Two's complement reduction to 32 bits. */
  function Wrap32(x: int): (r: int)
    ensures -TWO31 <= r < TWO31
    decreases if x >= TWO31 then x else if x < -TWO31 then -x else 0
  {
    if x >= TWO31 then Wrap32(x - TWO32) else if x < -TWO31 then Wrap32(x + TWO32) else x
  }

  lemma {:induction false} WrapCongruent(x: int, k: int)
    ensures Wrap32(x + k * TWO32) == Wrap32(x)
    decreases if k < 0 then -k else k
  {
    if k > 0 {
      WrapCongruent(x, k - 1);
      assert x + k * TWO32 == x + (k - 1) * TWO32 + TWO32;
    } else if k < 0 {
      WrapCongruent(x, k + 1);
      assert x + (k + 1) * TWO32 == x + k * TWO32 + TWO32;
    }
  }

  lemma {:induction false} WrapQuotient(x: int) returns (k: int)
    ensures Wrap32(x) == x + k * TWO32
    ensures k == 0 <==> -TWO31 <= x < TWO31
    decreases if x >= TWO31 then x else if x < -TWO31 then -x else 0
  {
    if x >= TWO31 {
      k := WrapQuotient(x - TWO32);
      k := k - 1;
    } else if x < -TWO31 {
      k := WrapQuotient(x + TWO32);
      k := k + 1;
    } else {
      k := 0;
    }
  }

  function Min(a: int, b: int): int
  {
    if a < b then a else b
  }

  lemma MulGap(d: int, w: int)
    requires w > 0
    ensures d * w >= w || d == 0 || d * w <= -w
  {
  }

  lemma MulMonotone(a: int, b: int, m: nat)
    requires a <= b
    ensures a * m <= b * m
  {
  }

  /** A quotient is at least every number whose multiple stays below the dividend. */
  lemma DivAtLeast(x: int, r: int, m: int)
    requires r > 0 && m * r <= x
    ensures m <= x / r
  {
    var q := x / r;
    assert x == q * r + x % r;
    MulGap(m - q, r);
    assert (m - q) * r == m * r - q * r;
  }

  lemma ProductBound(x: int, y: int, m: int)
    requires -m <= x <= m && -m <= y <= m
    ensures -(m * m) <= x * y <= m * m
  {
    assert (m - x) * (m + y) >= 0 && (m + x) * (m - y) >= 0;
    assert (m - x) * (m - y) >= 0 && (m + x) * (m + y) >= 0;
  }

  lemma DivNext(x: nat, d: nat)
    requires d > 0
    ensures (x + d) / d == x / d + 1
  {
    var q := (x + d) / d;
    assert x + d == q * d + (x + d) % d && x == x / d * d + x % d;
    MulGap(q - (x / d + 1), d);
    assert (q - (x / d + 1)) * d == q * d - x / d * d - d;
  }

  /** How many pieces of at most `chunk` something of length `len` is cut into; nothing is one piece. */
  function Pieces(len: nat, chunk: nat): nat
    requires chunk >= 1
  {
    if len > chunk then 1 + Pieces(len - chunk, chunk) else 1
  }

  lemma {:induction false} PiecesIs(len: nat, chunk: nat)
    requires chunk >= 1 && len >= 1
    ensures Pieces(len, chunk) == (len + chunk - 1) / chunk
    decreases len
  {
    DivNext(len - 1, chunk);
    if len > chunk {
      PiecesIs(len - chunk, chunk);
    } else {
      assert (len - 1) / chunk == 0;
    }
  }
}
