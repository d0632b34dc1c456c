/**
 Five inner product kernels over 16-bit samples: four 32-bit accumulator lanes that wrap around,
 widening to 64 bits, and a final arithmetic shift by 6.
 */
module InnerProduct {
  import opened Arithmetic

  type int16 = x: int | -0x8000 <= x < 0x8000

  /** Arithmetic shift right by 6. */
  function Shr6(x: int): int
  {
    x / 64
  }

  /** Wrapping early or late makes no difference to a sum. */
  lemma WrapAdd(x: int, y: int)
    ensures Wrap32(Wrap32(x) + y) == Wrap32(x + y)
  {
    var k := WrapQuotient(x);
    WrapCongruent(x + y, k);
    assert Wrap32(x) + y == x + y + k * TWO32;
  }

  lemma WrapPair(x: int, y: int)
    ensures Wrap32(Wrap32(x) + Wrap32(y)) == Wrap32(x + y)
  {
    WrapAdd(x, Wrap32(y));
    WrapAdd(y, x);
  }

  /* ---- reference sums ---- */

  function Mul(x: int, y: int): int
  {
    x * y
  }

  predicate AreProducts(p: seq<int>, a: seq<int16>, b: seq<int16>)
  {
    |p| == |a| == |b| && forall i :: 0 <= i < |p| ==> p[i] == Mul(a[i], b[i])
  }

  /** The products of corresponding samples. */
  function Products(a: seq<int16>, b: seq<int16>): (p: seq<int>)
    requires |a| == |b|
    ensures AreProducts(p, a, b)
  {
    if a == [] then [] else Products(a[..|a| - 1], b[..|b| - 1]) + [Mul(a[|a| - 1], b[|b| - 1])]
  }

  /** The sum of the first `n` products. */
  function Dot(p: seq<int>, n: nat): int
    requires n <= |p|
  {
    if n == 0 then 0 else Dot(p, n - 1) + p[n - 1]
  }

  /** Which blocks of four feed an accumulator: all, or the lower or upper two of each four. */
  datatype Half = All | Lower | Upper

  predicate InHalf(t: nat, half: Half)
  {
    match half
    case All => true
    case Lower => t % 4 < 2
    case Upper => t % 4 >= 2
  }

  /** The exact content of lane `j` after `t` blocks of four samples. */
  function LaneSum(p: seq<int>, t: nat, j: nat, half: Half): int
    requires 4 * t <= |p| && j < 4
  {
    if t == 0 then 0 else LaneSum(p, t - 1, j, half) + if InHalf(t - 1, half) then p[4 * (t - 1) + j] else 0
  }

  /** The four lanes together hold the inner product. */
  lemma {:induction false} LanesMakeDot(p: seq<int>, t: nat)
    requires 4 * t <= |p|
    ensures Dot(p, 4 * t)
         == LaneSum(p, t, 0, All) + LaneSum(p, t, 1, All) + LaneSum(p, t, 2, All) + LaneSum(p, t, 3, All)
  {
    if t > 0 {
      LanesMakeDot(p, t - 1);
      var n := 4 * (t - 1);
      assert Dot(p, n + 1) == Dot(p, n) + p[n];
      assert Dot(p, n + 2) == Dot(p, n + 1) + p[n + 1];
      assert Dot(p, n + 3) == Dot(p, n + 2) + p[n + 2];
      assert Dot(p, n + 4) == Dot(p, n + 3) + p[n + 3];
    }
  }

  lemma {:induction false} HalvesMakeLane(p: seq<int>, t: nat, j: nat)
    requires 4 * t <= |p| && j < 4
    ensures LaneSum(p, t, j, All) == LaneSum(p, t, j, Lower) + LaneSum(p, t, j, Upper)
  {
    if t > 0 {
      HalvesMakeLane(p, t - 1, j);
    }
  }

  /* ---- vector operations ---- */

  datatype Vec4 = Vec4(x0: int, x1: int, x2: int, x3: int)

  const ZERO4 := Vec4(0, 0, 0, 0)

  /** Multiply-accumulate of four samples from index `i` on. */
  function Vmlal(v: Vec4, a: seq<int16>, b: seq<int16>, i: nat): Vec4
    requires i + 4 <= |a| && i + 4 <= |b|
  {
    Vec4(Wrap32(v.x0 + Mul(a[i], b[i])), Wrap32(v.x1 + Mul(a[i + 1], b[i + 1])),
         Wrap32(v.x2 + Mul(a[i + 2], b[i + 2])), Wrap32(v.x3 + Mul(a[i + 3], b[i + 3])))
  }

  function VmlalTwice(v: Vec4, a: seq<int16>, b: seq<int16>, i: nat): Vec4
    requires i + 8 <= |a| && i + 8 <= |b|
  {
    Vmlal(Vmlal(v, a, b, i), a, b, i + 4)
  }

  /** Accumulators after `t` blocks: each lane's exact sum, wrapped. */
  function Lanes(p: seq<int>, t: nat, half: Half): Vec4
    requires 4 * t <= |p|
  {
    Vec4(Lane(p, t, 0, half), Lane(p, t, 1, half), Lane(p, t, 2, half), Lane(p, t, 3, half))
  }

  /** One lane's content after `t` blocks. */
  function Lane(p: seq<int>, t: nat, j: nat, half: Half): int
    requires 4 * t <= |p| && j < 4
  {
    Wrap32(LaneSum(p, t, j, half))
  }

  lemma LaneWraps(p: seq<int>, a: seq<int16>, b: seq<int16>, t: nat, j: nat, i: nat, half: Half)
    requires AreProducts(p, a, b) && 4 * t + 4 <= |p| && j < 4 && i == 4 * t + j
    ensures Lane(p, t + 1, j, half)
         == if InHalf(t, half) then Wrap32(Lane(p, t, j, half) + Mul(a[i], b[i])) else Lane(p, t, j, half)
  {
    assert p[i] == Mul(a[i], b[i]);
    WrapAdd(LaneSum(p, t, j, half), p[i]);
  }

  lemma VmlalStep(p: seq<int>, a: seq<int16>, b: seq<int16>, t: nat, half: Half)
    requires AreProducts(p, a, b) && 4 * t + 4 <= |a|
    ensures InHalf(t, half) ==> Lanes(p, t + 1, half) == Vmlal(Lanes(p, t, half), a, b, 4 * t)
    ensures !InHalf(t, half) ==> Lanes(p, t + 1, half) == Lanes(p, t, half)
  {
    LaneWraps(p, a, b, t, 0, 4 * t, half);
    LaneWraps(p, a, b, t, 1, 4 * t + 1, half);
    LaneWraps(p, a, b, t, 2, 4 * t + 2, half);
    LaneWraps(p, a, b, t, 3, 4 * t + 3, half);
  }

  ghost predicate AfterBlocks(partial: Vec4, p: seq<int>, t: nat)
  {
    4 * t <= |p| && partial == Lanes(p, t, All)
  }

  lemma FourStep(partial: Vec4, p: seq<int>, a: seq<int16>, b: seq<int16>, t: nat)
    requires AreProducts(p, a, b) && 4 * t + 4 <= |a| && AfterBlocks(partial, p, t)
    ensures AfterBlocks(Vmlal(partial, a, b, 4 * t), p, t + 1)
  {
    VmlalStep(p, a, b, t, All);
  }

  lemma EightStep(partial: Vec4, p: seq<int>, a: seq<int16>, b: seq<int16>, t: nat)
    requires AreProducts(p, a, b) && 4 * t + 8 <= |a| && AfterBlocks(partial, p, t)
    ensures AfterBlocks(VmlalTwice(partial, a, b, 4 * t), p, t + 2)
  {
    FourStep(partial, p, a, b, t);
    FourStep(Vmlal(partial, a, b, 4 * t), p, a, b, t + 1);
  }

  /* ---- the kernels ---- */

  /** The result of the kernels that widen and shift two halves. */
  function TwoHalves(v: Vec4): int
  {
    Wrap32(Shr6(v.x0 + v.x1) + Shr6(v.x2 + v.x3))
  }

  function TwoHalvesOfTwo(v: Vec4, w: Vec4): int
  {
    Wrap32(Shr6(v.x0 + v.x1 + (w.x0 + w.x1)) + Shr6(v.x2 + v.x3 + (w.x2 + w.x3)))
  }

  /** Four samples a step into one accumulator. */
  method AccumulateFour(a: seq<int16>, b: seq<int16>, len: nat) returns (partial: Vec4)
    requires len <= |a| == |b|
    ensures AfterBlocks(partial, Products(a, b), len / 4)
  {
    partial := ZERO4;
    var n, i := len / 4, 0;
    ghost var p, t := Products(a, b), 0;
    while n > 0
      invariant n >= 0 && t + n == len / 4 && i == 4 * t
      invariant AfterBlocks(partial, p, t)
    {
      FourStep(partial, p, a, b, t);
      partial := Vmlal(partial, a, b, i);
      i := i + 4;
      n := n - 1;
      t := t + 1;
    }
  }

  /** Eight samples a step into one accumulator. */
  method AccumulateEight(a: seq<int16>, b: seq<int16>, len: nat) returns (partial: Vec4)
    requires len <= |a| == |b|
    ensures AfterBlocks(partial, Products(a, b), 2 * (len / 8))
  {
    partial := ZERO4;
    var n, i := len / 8, 0;
    ghost var p, t := Products(a, b), 0;
    while n > 0
      invariant n >= 0 && t + 2 * n == 2 * (len / 8) && i == 4 * t
      invariant AfterBlocks(partial, p, t)
    {
      EightStep(partial, p, a, b, t);
      partial := VmlalTwice(partial, a, b, i);
      i := i + 8;
      n := n - 1;
      t := t + 2;
    }
  }

  /** Four samples a step, all arithmetic in 32 bits, one shift: for every input the result is the
      shifted inner product of the longest prefix of whole steps, wrapped to 32 bits. */
  method InnerProductXcode(a: seq<int16>, b: seq<int16>, len: nat) returns (sum: int)
    requires len <= |a| == |b|
    ensures sum == Shr6(Wrap32(Dot(Products(a, b), 4 * (len / 4))))
  {
    var part := AccumulateFour(a, b, len);
    var low, high := Wrap32(part.x0 + part.x2), Wrap32(part.x1 + part.x3);
    var s := Wrap32(low + high);
    FoldWrapped(Products(a, b), len / 4);
    sum := Shr6(s);
  }

  lemma FoldWrapped(p: seq<int>, t: nat)
    requires 4 * t <= |p|
    ensures var v := Lanes(p, t, All);
            Wrap32(Wrap32(v.x0 + v.x2) + Wrap32(v.x1 + v.x3)) == Wrap32(Dot(p, 4 * t))
  {
    var s0, s1, s2, s3 := LaneSum(p, t, 0, All), LaneSum(p, t, 1, All), LaneSum(p, t, 2, All), LaneSum(p, t, 3, All);
    LanesMakeDot(p, t);
    FoldFour(s0, s1, s2, s3);
  }

  lemma FoldFour(s0: int, s1: int, s2: int, s3: int)
    ensures Wrap32(Wrap32(Wrap32(s0) + Wrap32(s2)) + Wrap32(Wrap32(s1) + Wrap32(s3))) == Wrap32(s0 + s1 + s2 + s3)
  {
    WrapPair(s0, s2);
    WrapPair(s1, s3);
    WrapPair(s0 + s2, s1 + s3);
    assert s0 + s2 + (s1 + s3) == s0 + s1 + s2 + s3;
  }

  method InnerProductXcodeOptim(a: seq<int16>, b: seq<int16>, len: nat) returns (sum: int)
    requires len <= |a| == |b|
    ensures sum == TwoHalves(Lanes(Products(a, b), len / 4, All))
  {
    var partial := AccumulateFour(a, b, len);
    var back0, back1 := Shr6(partial.x0 + partial.x1), Shr6(partial.x2 + partial.x3);
    sum := Wrap32(back0 + back1);
  }

  method InnerProductXcodeOptim8(a: seq<int16>, b: seq<int16>, len: nat) returns (sum: int)
    requires len <= |a| == |b|
    ensures sum == TwoHalves(Lanes(Products(a, b), 2 * (len / 8), All))
  {
    var partial := AccumulateEight(a, b, len);
    var back0, back1 := Shr6(partial.x0 + partial.x1), Shr6(partial.x2 + partial.x3);
    sum := Wrap32(back0 + back1);
  }

  lemma InLower(t: nat)
    requires t % 4 == 0
    ensures InHalf(t, Lower) && InHalf(t + 1, Lower) && !InHalf(t + 2, Lower) && !InHalf(t + 3, Lower)
    ensures !InHalf(t, Upper) && !InHalf(t + 1, Upper) && InHalf(t + 2, Upper) && InHalf(t + 3, Upper)
  {
  }

  lemma SixteenStepLower(p: seq<int>, a: seq<int16>, b: seq<int16>, t: nat)
    requires AreProducts(p, a, b) && t % 4 == 0 && 4 * t + 16 <= |a|
    ensures Lanes(p, t + 4, Lower) == VmlalTwice(Lanes(p, t, Lower), a, b, 4 * t)
  {
    InLower(t);
    VmlalStep(p, a, b, t, Lower);
    VmlalStep(p, a, b, t + 1, Lower);
    VmlalStep(p, a, b, t + 2, Lower);
    VmlalStep(p, a, b, t + 3, Lower);
  }

  lemma SixteenStepUpper(p: seq<int>, a: seq<int16>, b: seq<int16>, t: nat)
    requires AreProducts(p, a, b) && t % 4 == 0 && 4 * t + 16 <= |a|
    ensures Lanes(p, t + 4, Upper) == VmlalTwice(Lanes(p, t, Upper), a, b, 4 * t + 8)
  {
    InLower(t);
    VmlalStep(p, a, b, t, Upper);
    VmlalStep(p, a, b, t + 1, Upper);
    VmlalStep(p, a, b, t + 2, Upper);
    VmlalStep(p, a, b, t + 3, Upper);
  }

  ghost predicate AfterSixteens(partial: Vec4, p2: Vec4, p: seq<int>, k: nat)
  {
    16 * k <= |p| && partial == Lanes(p, 4 * k, Lower) && p2 == Lanes(p, 4 * k, Upper)
  }

  lemma SixteenStep(partial: Vec4, p2: Vec4, p: seq<int>, a: seq<int16>, b: seq<int16>, k: nat)
    requires AreProducts(p, a, b) && 16 * k + 16 <= |a| && AfterSixteens(partial, p2, p, k)
    ensures AfterSixteens(VmlalTwice(partial, a, b, 16 * k), VmlalTwice(p2, a, b, 16 * k + 8), p, k + 1)
  {
    SixteenStepLower(p, a, b, 4 * k);
    SixteenStepUpper(p, a, b, 4 * k);
  }

  /** Sixteen samples a step into two accumulators. */
  method AccumulateSixteen(a: seq<int16>, b: seq<int16>, len: nat) returns (partial: Vec4, p2: Vec4)
    requires len <= |a| == |b|
    ensures AfterSixteens(partial, p2, Products(a, b), len / 16)
  {
    partial, p2 := ZERO4, ZERO4;
    var n, i := len / 16, 0;
    ghost var p, k := Products(a, b), 0;
    while n > 0
      invariant n >= 0 && k + n == len / 16 && i == 16 * k
      invariant AfterSixteens(partial, p2, p, k)
    {
      SixteenStep(partial, p2, p, a, b, k);
      partial := VmlalTwice(partial, a, b, i);
      p2 := VmlalTwice(p2, a, b, i + 8);
      i := i + 16;
      n := n - 1;
      k := k + 1;
    }
  }

  method InnerProductXcodeOptim16(a: seq<int16>, b: seq<int16>, len: nat) returns (sum: int)
    requires len <= |a| == |b|
    ensures var p, t := Products(a, b), 4 * (len / 16);
            sum == TwoHalvesOfTwo(Lanes(p, t, Lower), Lanes(p, t, Upper))
  {
    var partial, p2 := AccumulateSixteen(a, b, len);
    var back0, back1 := partial.x0 + partial.x1, partial.x2 + partial.x3;
    back0, back1 := back0 + (p2.x0 + p2.x1), back1 + (p2.x2 + p2.x3);
    back0, back1 := Shr6(back0), Shr6(back1);
    sum := Wrap32(back0 + back1);
  }

  method InnerProductIntrinsics(a: seq<int16>, b: seq<int16>, len: nat) returns (sum: int)
    requires len <= |a| == |b|
    ensures sum == TwoHalves(Lanes(Products(a, b), 2 * (len / 8), All))
  {
    var partial := AccumulateEight(a, b, len);
    sum := Wrap32(Shr6(partial.x0 + partial.x1) + Shr6(partial.x2 + partial.x3));
  }

  /* ---- which sample goes where ---- */

  /** The samples of index i with i % 4 == j that fall into the columns from `lo` to `hi` of every sixteen. */
  predicate InColumn(i: nat, j: nat, lo: nat, hi: nat)
  {
    i % 4 == j && lo <= i % 16 < hi
  }

  function ColumnSum(p: seq<int>, n: nat, j: nat, lo: nat, hi: nat): int
    requires n <= |p|
  {
    if n == 0 then 0 else ColumnSum(p, n - 1, j, lo, hi) + if InColumn(n - 1, j, lo, hi) then p[n - 1] else 0
  }

  function Lo(half: Half): nat
  {
    if half == Upper then 8 else 0
  }

  function Hi(half: Half): nat
  {
    if half == Lower then 8 else 16
  }

  lemma BlockColumn(t: nat, j: nat, i: nat, half: Half)
    requires j < 4 && 4 * t <= i < 4 * t + 4
    ensures InColumn(i, j, Lo(half), Hi(half)) <==> i == 4 * t + j && InHalf(t, half)
  {
    assert i % 4 == i - 4 * t;
    assert i % 16 == 4 * (t % 4) + (i - 4 * t);
  }

  lemma ColumnStep(p: seq<int>, t: nat, j: nat, i: nat, half: Half)
    requires i < |p| && j < 4 && 4 * t <= i < 4 * t + 4
    ensures ColumnSum(p, i + 1, j, Lo(half), Hi(half))
         == ColumnSum(p, i, j, Lo(half), Hi(half)) + if i == 4 * t + j && InHalf(t, half) then p[i] else 0
  {
    BlockColumn(t, j, i, half);
  }

  lemma ColumnBlock(p: seq<int>, t: nat, j: nat, half: Half)
    requires 4 * t + 4 <= |p| && j < 4
    ensures ColumnSum(p, 4 * t + 4, j, Lo(half), Hi(half))
         == ColumnSum(p, 4 * t, j, Lo(half), Hi(half)) + if InHalf(t, half) then p[4 * t + j] else 0
  {
    ColumnStep(p, t, j, 4 * t, half);
    ColumnStep(p, t, j, 4 * t + 1, half);
    ColumnStep(p, t, j, 4 * t + 2, half);
    ColumnStep(p, t, j, 4 * t + 3, half);
  }

  /** A lane holds the products of one index modulo four; each of two accumulators takes eight of every sixteen. */
  lemma {:induction false} LaneIsColumn(p: seq<int>, t: nat, j: nat, half: Half)
    requires 4 * t <= |p| && j < 4
    ensures LaneSum(p, t, j, half) == ColumnSum(p, 4 * t, j, Lo(half), Hi(half))
  {
    if t > 0 {
      LaneIsColumn(p, t - 1, j, half);
      ColumnBlock(p, t - 1, j, half);
    }
  }

  /** The kernels that shift two halves pair index 0 with 1 and 2 with 3 modulo four, each sum of one index wrapped
      on its own, and shift each pair before they are added. */
  lemma HalvesByIndex(p: seq<int>, t: nat)
    requires 4 * t <= |p|
    ensures TwoHalves(Lanes(p, t, All))
         == Wrap32((Wrap32(ColumnSum(p, 4 * t, 0, 0, 16)) + Wrap32(ColumnSum(p, 4 * t, 1, 0, 16))) / 64
                   + (Wrap32(ColumnSum(p, 4 * t, 2, 0, 16)) + Wrap32(ColumnSum(p, 4 * t, 3, 0, 16))) / 64)
  {
    LaneIsColumn(p, t, 0, All);
    LaneIsColumn(p, t, 1, All);
    LaneIsColumn(p, t, 2, All);
    LaneIsColumn(p, t, 3, All);
  }

  /** The sum of two wrapped columns, one of each accumulator. */
  function TwoColumns(p: seq<int>, n: nat, j: nat): int
    requires n <= |p|
  {
    Wrap32(ColumnSum(p, n, j, 0, 8)) + Wrap32(ColumnSum(p, n, j, 8, 16))
  }

  /** The 16-wide kernel wraps the two halves of every column apart. */
  lemma SixteenByIndex(p: seq<int>, t: nat)
    requires 4 * t <= |p|
    ensures TwoHalvesOfTwo(Lanes(p, t, Lower), Lanes(p, t, Upper))
         == Wrap32((TwoColumns(p, 4 * t, 0) + TwoColumns(p, 4 * t, 1)) / 64
                   + (TwoColumns(p, 4 * t, 2) + TwoColumns(p, 4 * t, 3)) / 64)
  {
    TwoLanes(p, t, 0);
    TwoLanes(p, t, 1);
    TwoLanes(p, t, 2);
    TwoLanes(p, t, 3);
  }

  lemma TwoLanes(p: seq<int>, t: nat, j: nat)
    requires 4 * t <= |p| && j < 4
    ensures Lane(p, t, j, Lower) + Lane(p, t, j, Upper) == TwoColumns(p, 4 * t, j)
  {
    LaneIsColumn(p, t, j, Lower);
    LaneIsColumn(p, t, j, Upper);
  }

  /* ---- accuracy ---- */

  predicate Bounded(a: seq<int16>, m: int)
  {
    forall i :: 0 <= i < |a| ==> -m <= a[i] <= m
  }

  predicate ProductsBounded(p: seq<int>, q: int)
  {
    forall i :: 0 <= i < |p| ==> -q <= p[i] <= q
  }

  lemma SamplesBoundProducts(a: seq<int16>, b: seq<int16>, m: int)
    requires |a| == |b| && Bounded(a, m) && Bounded(b, m)
    ensures ProductsBounded(Products(a, b), Mul(m, m))
  {
    var p := Products(a, b);
    forall i | 0 <= i < |p| ensures -Mul(m, m) <= p[i] <= Mul(m, m) { ProductBound(a[i], b[i], m); }
  }

  /** A lane of the 4-wide and 8-wide kernels takes one product per block of four. */
  lemma {:induction false} LaneBound(p: seq<int>, t: nat, j: nat, q: nat)
    requires ProductsBounded(p, q) && 4 * t <= |p| && j < 4
    ensures -Mul(t, q) <= LaneSum(p, t, j, All) <= Mul(t, q)
  {
    if t > 0 {
      LaneBound(p, t - 1, j, q);
      assert Mul(t, q) == Mul(t - 1, q) + q;
    }
  }

  /** A lane of the 16-wide kernel takes two products per sixteen samples. */
  lemma {:induction false} HalfLaneBound(p: seq<int>, k: nat, j: nat, half: Half, q: nat)
    requires ProductsBounded(p, q) && 16 * k <= |p| && j < 4 && half != All
    ensures -Mul(2 * k, q) <= LaneSum(p, 4 * k, j, half) <= Mul(2 * k, q)
  {
    if k > 0 {
      HalfLaneBound(p, k - 1, j, half, q);
      HalfLaneStep(p, 4 * (k - 1), j, half, q);
      AddTwo(2 * (k - 1), q);
    }
  }

  /** Of four consecutive blocks, two feed each half. */
  lemma HalfLaneStep(p: seq<int>, t: nat, j: nat, half: Half, q: nat)
    requires ProductsBounded(p, q) && t % 4 == 0 && 4 * t + 16 <= |p| && j < 4 && half != All
    ensures -2 * q <= LaneSum(p, t + 4, j, half) - LaneSum(p, t, j, half) <= 2 * q
  {
    InLower(t);
    LaneStep(p, t, j, half);
    LaneStep(p, t + 1, j, half);
    LaneStep(p, t + 2, j, half);
    LaneStep(p, t + 3, j, half);
  }

  lemma LaneStep(p: seq<int>, t: nat, j: nat, half: Half)
    requires 4 * t + 4 <= |p| && j < 4
    ensures LaneSum(p, t + 1, j, half) == LaneSum(p, t, j, half) + if InHalf(t, half) then p[4 * t + j] else 0
  {
  }

  lemma AddTwo(x: int, q: int)
    ensures Mul(x + 2, q) == Mul(x, q) + 2 * q
  {
  }

  /** No lane wraps. */
  predicate Exact(p: seq<int>, t: nat, half: Half)
    requires 4 * t <= |p|
  {
    forall j :: 0 <= j < 4 ==> -TWO31 <= LaneSum(p, t, j, half) < TWO31
  }

  /** The lanes of the narrow kernels never wrap while (len/4) * M * M stays below 2^31. */
  lemma LanesExact(a: seq<int16>, b: seq<int16>, t: nat, m: int)
    requires |a| == |b| && Bounded(a, m) && Bounded(b, m) && 4 * t <= |a|
    requires Mul(t, Mul(m, m)) < TWO31
    ensures Exact(Products(a, b), t, All)
  {
    SamplesBoundProducts(a, b, m);
    var p, q := Products(a, b), Mul(m, m);
    forall j | 0 <= j < 4 ensures -TWO31 <= LaneSum(p, t, j, All) < TWO31 { LaneBound(p, t, j, q); }
  }

  /** The lanes of the 16-wide kernel never wrap while (len/8) * M * M stays below 2^31. */
  lemma HalfLanesExact(a: seq<int16>, b: seq<int16>, k: nat, m: int)
    requires |a| == |b| && Bounded(a, m) && Bounded(b, m) && 16 * k <= |a|
    requires Mul(2 * k, Mul(m, m)) < TWO31
    ensures Exact(Products(a, b), 4 * k, Lower) && Exact(Products(a, b), 4 * k, Upper)
  {
    SamplesBoundProducts(a, b, m);
    var p, q := Products(a, b), Mul(m, m);
    forall j | 0 <= j < 4
      ensures -TWO31 <= LaneSum(p, 4 * k, j, Lower) < TWO31 && -TWO31 <= LaneSum(p, 4 * k, j, Upper) < TWO31
    {
      HalfLaneBound(p, k, j, Lower, q);
      HalfLaneBound(p, k, j, Upper, q);
    }
  }

  /** Shifting two parts loses at most one unit against shifting their sum. */
  lemma ShiftParts(x: int, y: int)
    ensures Shr6(x) + Shr6(y) == Shr6(x + y) || Shr6(x) + Shr6(y) == Shr6(x + y) - 1
  {
  }

  lemma ExactLanes(p: seq<int>, t: nat, half: Half)
    requires 4 * t <= |p| && Exact(p, t, half)
    ensures Lanes(p, t, half)
         == Vec4(LaneSum(p, t, 0, half), LaneSum(p, t, 1, half), LaneSum(p, t, 2, half), LaneSum(p, t, 3, half))
  {
  }

  /** The four sums fit: the final addition does not wrap. */
  lemma HalvesFit(x: int, y: int)
    requires -8 * TWO31 <= x < 8 * TWO31 && -8 * TWO31 <= y < 8 * TWO31
    ensures Wrap32(Shr6(x) + Shr6(y)) == Shr6(x) + Shr6(y)
  {
  }

  /** Whole turns of 2^32 survive the shift as multiples of 2^26. */
  lemma ShiftTurns(s: int, k: int)
    ensures Shr6(s + k * TWO32) == Shr6(s) + k * 0x400_0000
  {
    assert s + k * TWO32 == s + 64 * (k * 0x400_0000);
  }

  /** Two halves x and y whose sum is s up to whole turns: shifted apart they give floor(s/64) or one less if
      and only if there are no turns. */
  lemma ShiftedIff(x: int, y: int, s: int, k: int)
    requires -8 * TWO31 <= x < 8 * TWO31 && -8 * TWO31 <= y < 8 * TWO31 && x + y == s + k * TWO32
    ensures var r := Wrap32(Shr6(x) + Shr6(y)); (r == Shr6(s) || r == Shr6(s) - 1) <==> x + y == s
  {
    HalvesFit(x, y);
    ShiftParts(x, y);
    ShiftTurns(s, k);
  }

  function LaneTotal(v: Vec4): int
  {
    v.x0 + v.x1 + v.x2 + v.x3
  }

  lemma LaneTurns(p: seq<int>, t: nat, half: Half) returns (k: int)
    requires 4 * t <= |p|
    ensures LaneTotal(Lanes(p, t, half))
         == LaneSum(p, t, 0, half) + LaneSum(p, t, 1, half) + LaneSum(p, t, 2, half) + LaneSum(p, t, 3, half)
            + k * TWO32
  {
    var k0 := WrapQuotient(LaneSum(p, t, 0, half));
    var k1 := WrapQuotient(LaneSum(p, t, 1, half));
    var k2 := WrapQuotient(LaneSum(p, t, 2, half));
    var k3 := WrapQuotient(LaneSum(p, t, 3, half));
    k := k0 + k1 + k2 + k3;
  }

  /** For every input: a kernel that shifts two halves returns floor(S/64) or one less if and only if the
      lanes, wrapped or not, still add up to S. */
  lemma HalvesAccurateIff(p: seq<int>, t: nat)
    requires 4 * t <= |p|
    ensures var v, s := Lanes(p, t, All), Dot(p, 4 * t);
            TwoHalves(v) == Shr6(s) || TwoHalves(v) == Shr6(s) - 1 <==> LaneTotal(v) == s
  {
    var v := Lanes(p, t, All);
    LanesMakeDot(p, t);
    var k := LaneTurns(p, t, All);
    ShiftedIff(v.x0 + v.x1, v.x2 + v.x3, Dot(p, 4 * t), k);
  }

  /** The same for the two accumulators of the 16-wide kernel. */
  lemma SixteenAccurateIff(p: seq<int>, t: nat)
    requires 4 * t <= |p|
    ensures var v, w, s := Lanes(p, t, Lower), Lanes(p, t, Upper), Dot(p, 4 * t);
            TwoHalvesOfTwo(v, w) == Shr6(s) || TwoHalvesOfTwo(v, w) == Shr6(s) - 1
            <==> LaneTotal(v) + LaneTotal(w) == s
  {
    var k := BothTurns(p, t);
    SixteenShifted(Lanes(p, t, Lower), Lanes(p, t, Upper), Dot(p, 4 * t), k);
  }

  lemma BothTurns(p: seq<int>, t: nat) returns (k: int)
    requires 4 * t <= |p|
    ensures LaneTotal(Lanes(p, t, Lower)) + LaneTotal(Lanes(p, t, Upper)) == Dot(p, 4 * t) + k * TWO32
  {
    LanesMakeDot(p, t);
    HalvesMakeLane(p, t, 0);
    HalvesMakeLane(p, t, 1);
    HalvesMakeLane(p, t, 2);
    HalvesMakeLane(p, t, 3);
    var lower := LaneTurns(p, t, Lower);
    var upper := LaneTurns(p, t, Upper);
    k := lower + upper;
  }

  predicate In32(v: Vec4)
  {
    -TWO31 <= v.x0 < TWO31 && -TWO31 <= v.x1 < TWO31 && -TWO31 <= v.x2 < TWO31 && -TWO31 <= v.x3 < TWO31
  }

  lemma SixteenShifted(v: Vec4, w: Vec4, s: int, k: int)
    requires In32(v) && In32(w) && LaneTotal(v) + LaneTotal(w) == s + k * TWO32
    ensures TwoHalvesOfTwo(v, w) == Shr6(s) || TwoHalvesOfTwo(v, w) == Shr6(s) - 1
            <==> LaneTotal(v) + LaneTotal(w) == s
  {
    ShiftedIff(v.x0 + v.x1 + (w.x0 + w.x1), v.x2 + v.x3 + (w.x2 + w.x3), s, k);
  }

  /** In particular when no lane wraps. */
  lemma HalvesAccurate(p: seq<int>, t: nat)
    requires 4 * t <= |p| && Exact(p, t, All)
    ensures var r := TwoHalves(Lanes(p, t, All));
            r == Shr6(Dot(p, 4 * t)) || r == Shr6(Dot(p, 4 * t)) - 1
  {
    LanesMakeDot(p, t);
    ExactLanes(p, t, All);
    HalvesAccurateIff(p, t);
  }

  /** Splitting each lane in two does not change what is shifted. */
  lemma SixteenSameAsNarrow(p: seq<int>, t: nat)
    requires 4 * t <= |p| && Exact(p, t, Lower) && Exact(p, t, Upper) && Exact(p, t, All)
    ensures TwoHalvesOfTwo(Lanes(p, t, Lower), Lanes(p, t, Upper)) == TwoHalves(Lanes(p, t, All))
  {
    ExactLanes(p, t, Lower);
    ExactLanes(p, t, Upper);
    ExactLanes(p, t, All);
    HalvesMakeLane(p, t, 0);
    HalvesMakeLane(p, t, 1);
    HalvesMakeLane(p, t, 2);
    HalvesMakeLane(p, t, 3);
  }

  /** The 16-wide kernel is accurate on its own, wider bound. */
  lemma SixteenAccurate(p: seq<int>, t: nat)
    requires 4 * t <= |p| && Exact(p, t, Lower) && Exact(p, t, Upper)
    ensures var r := TwoHalvesOfTwo(Lanes(p, t, Lower), Lanes(p, t, Upper));
            r == Shr6(Dot(p, 4 * t)) || r == Shr6(Dot(p, 4 * t)) - 1
  {
    ExactLanes(p, t, Lower);
    ExactLanes(p, t, Upper);
    HalvesMakeLane(p, t, 0);
    HalvesMakeLane(p, t, 1);
    HalvesMakeLane(p, t, 2);
    HalvesMakeLane(p, t, 3);
    LanesMakeDot(p, t);
    SixteenAccurateIff(p, t);
  }

  /** The single-shift kernel is exact if and only if the inner product fits in 32 bits. */
  lemma SingleShiftExactIff(s: int)
    ensures Shr6(Wrap32(s)) == Shr6(s) <==> -TWO31 <= s < TWO31
  {
    var k := WrapQuotient(s);
    ShiftTurns(s, k);
  }

  lemma Sixteenths(len: nat)
    requires len % 16 == 0
    ensures 2 * (len / 8) == len / 4 && 4 * (len / 16) == len / 4 && 4 * (len / 4) == len
  {
    var k := len / 16;
    assert len == 16 * k && len / 8 == 2 * k && len / 4 == 4 * k;
  }

  /** On whole multiples of sixteen samples with no wrapping lane, the four kernels that shift two halves
      return the same value, and the single-shift kernel returns it or one more. */
  method CompareKernels(a: seq<int16>, b: seq<int16>, len: nat, ghost m: int)
    returns (xcode: int, optim: int, optim8: int, optim16: int, intrinsics: int)
    requires len % 16 == 0 && len <= |a| == |b| && Bounded(a, m) && Bounded(b, m)
    requires Mul(len / 4, Mul(m, m)) < TWO31
    ensures optim == optim8 == optim16 == intrinsics
    ensures optim == Shr6(Dot(Products(a, b), len)) || optim == Shr6(Dot(Products(a, b), len)) - 1
    ensures -TWO31 <= Dot(Products(a, b), len) < TWO31 ==> xcode == optim || xcode == optim + 1
  {
    ghost var p, t := Products(a, b), len / 4;
    Sixteenths(len);
    xcode := InnerProductXcode(a, b, len);
    optim := InnerProductXcodeOptim(a, b, len);
    optim8 := InnerProductXcodeOptim8(a, b, len);
    optim16 := InnerProductXcodeOptim16(a, b, len);
    intrinsics := InnerProductIntrinsics(a, b, len);
    LanesExact(a, b, t, m);
    Scale(2 * (len / 16), t, m);
    HalfLanesExact(a, b, len / 16, m);
    HalvesAccurate(p, t);
    SixteenSameAsNarrow(p, t);
  }

  lemma Scale(x: nat, y: nat, m: int)
    requires x <= y
    ensures Mul(x, Mul(m, m)) <= Mul(y, Mul(m, m))
  {
    assert Mul(m, m) >= 0;
  }

  lemma {:induction false} ConstantLane(p: seq<int>, t: nat, j: nat, q: int)
    requires 4 * t <= |p| && j < 4 && forall i :: 0 <= i < |p| ==> p[i] == q
    ensures LaneSum(p, t, j, All) == Mul(t, q)
  {
    if t > 0 {
      ConstantLane(p, t - 1, j, q);
      assert Mul(t, q) == Mul(t - 1, q) + q;
    }
  }

  /** The bound is sharp: samples that all equal m keep the lanes from wrapping if and only if
      (len/4) * m * m stays below 2^31. */
  lemma BoundIsSharp(a: seq<int16>, b: seq<int16>, t: nat, m: int16)
    requires |a| == |b| && 4 * t <= |a| && forall i :: 0 <= i < |a| ==> a[i] == m && b[i] == m
    ensures Exact(Products(a, b), t, All) <==> Mul(t, Mul(m, m)) < TWO31
  {
    Scale(0, t, m);
    ConstantLanes(Products(a, b), t, Mul(m, m));
  }

  lemma ConstantLanes(p: seq<int>, t: nat, q: int)
    requires 4 * t <= |p| && forall i :: 0 <= i < |p| ==> p[i] == q
    ensures Exact(p, t, All) <==> -TWO31 <= Mul(t, q) < TWO31
  {
    ConstantLane(p, t, 0, q);
    ConstantLane(p, t, 1, q);
    ConstantLane(p, t, 2, q);
    ConstantLane(p, t, 3, q);
  }

  /** Sixty-four samples of 16383 overflow every lane, and a kernel then returns -32768 for an inner product
      that is positive. */
  lemma LargeSamplesWrap(a: seq<int16>, b: seq<int16>)
    requires |a| == |b| == 64 && forall i :: 0 <= i < 64 ==> a[i] == 16383 && b[i] == 16383
    ensures !Exact(Products(a, b), 16, All)
    ensures TwoHalves(Lanes(Products(a, b), 16, All)) == -32768
  {
    BoundIsSharp(a, b, 16, 16383);
    var p, q := Products(a, b), Mul(16383, 16383);
    assert q == 268402689 && Mul(16, q) == 4294443024;
    ConstantLane(p, 16, 0, q);
    ConstantLane(p, 16, 1, q);
    ConstantLane(p, 16, 2, q);
    ConstantLane(p, 16, 3, q);
    assert Wrap32(4294443024) == -524272;
  }

}
