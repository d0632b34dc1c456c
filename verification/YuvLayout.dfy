/**
 Where the Y, U and V samples of a 4:2:0 picture live: the planar and the semi-planar layout as plane
 offset, row stride and pixel stride tables over one buffer of 3*W*H/2 bytes.
 */
module YuvLayout {
  import opened Arithmetic

  datatype Size = Size(width: nat, height: nat)
  datatype Rect = Rect(x: nat, y: nat, w: nat, h: nat)
  datatype Plane = Y | U | V

  predicate Even(size: Size)
  {
    size.width % 2 == 0 && size.height % 2 == 0
  }

  predicate Inside(r: Rect, size: Size)
  {
    r.x + r.w <= size.width && r.y + r.h <= size.height
  }

  function Half(size: Size): Size
  {
    Size(size.width / 2, size.height / 2)
  }

  function HalfRect(r: Rect): Rect
  {
    Rect(r.x / 2, r.y / 2, r.w / 2, r.h / 2)
  }

  function PlaneSize(size: Size, p: Plane): Size
  {
    if p == Y then size else Half(size)
  }

  function PlaneRect(r: Rect, p: Plane): Rect
  {
    if p == Y then r else HalfRect(r)
  }

  function Area(size: Size): nat
  {
    size.width * size.height
  }

  function BufferLength(size: Size): nat
  {
    Area(size) * 3 / 2
  }

  /** The address of column `c`, row `r` in a window with the given strides. */
  function Cell(base: nat, rowStride: nat, pixStride: nat, c: nat, r: nat): nat
  {
    base + r * rowStride + c * pixStride
  }

  function Base(size: Size, semi: bool, p: Plane): nat
  {
    match p
    case Y => 0
    case U => Area(size)
    case V => if semi then Area(size) + 1 else Area(size) + Area(size) / 4
  }

  function RowStride(size: Size, semi: bool, p: Plane): nat
  {
    if p == Y || semi then size.width else size.width / 2
  }

  function PixStride(semi: bool, p: Plane): nat
  {
    if p != Y && semi then 2 else 1
  }

  function Addr(size: Size, semi: bool, p: Plane, c: nat, r: nat): nat
  {
    Cell(Base(size, semi, p), RowStride(size, semi, p), PixStride(semi, p), c, r)
  }

  /* ---- arithmetic of row-major indices ---- */

  lemma RowMajor(w: nat, h: nat, c: nat, r: nat)
    requires c < w && r < h
    ensures r * w + c < w * h
    ensures (r * w + c) / w == r && (r * w + c) % w == c
  {
    assert r * w + w == (r + 1) * w <= h * w;
    DivModUnique(r * w + c, w, r, c);
  }

  lemma DivModUnique(k: nat, w: nat, r: nat, c: nat)
    requires c < w && k == r * w + c
    ensures k / w == r && k % w == c
  {
    assert k == k / w * w + k % w;
    MulGap(k / w - r, w);
    assert (k / w - r) * w == c - k % w;
  }

  lemma RowMajorInverse(w: nat, h: nat, k: nat)
    requires k < w * h
    ensures w > 0 && k / w < h && k % w < w && k / w * w + k % w == k
  {
    assert k == k / w * w + k % w;
    MulGap(k / w - h, w);
    assert (k / w - h) * w == k - k % w - h * w;
  }

  lemma HalfArea(size: Size)
    requires Even(size)
    ensures Area(size) % 4 == 0 && Area(Half(size)) == Area(size) / 4
    ensures BufferLength(size) == Area(size) + 2 * Area(Half(size))
  {
    var a, b := size.width / 2, size.height / 2;
    assert size.width == 2 * a && size.height == 2 * b;
    assert size.width * size.height == 4 * (a * b);
  }

  /* ---- the tables name every byte exactly once ---- */

  datatype Sample = Sample(p: Plane, c: nat, r: nat)

  predicate InPicture(size: Size, s: Sample)
  {
    s.c < PlaneSize(size, s.p).width && s.r < PlaneSize(size, s.p).height
  }

  function AddrOf(size: Size, semi: bool, s: Sample): nat
  {
    Addr(size, semi, s.p, s.c, s.r)
  }

  function SampleAt(p: Plane, w: nat, j: nat): Sample
    requires w > 0
  {
    Sample(p, j % w, j / w)
  }

  /** The sample stored at byte `k`. */
  function Locate(size: Size, semi: bool, k: nat): Sample
    requires size.width >= 2
  {
    var area, half := Area(size), size.width / 2;
    if k < area then SampleAt(Y, size.width, k)
    else if semi then SampleAt(if (k - area) % 2 == 0 then U else V, half, (k - area) / 2)
    else if k < area + area / 4 then SampleAt(U, half, k - area)
    else SampleAt(V, half, k - area - area / 4)
  }

  /** In the chroma planes, an address is the plane's base plus a row-major index times the pixel stride. */
  lemma ChromaAddr(size: Size, semi: bool, p: Plane, c: nat, r: nat)
    requires Even(size) && p != Y
    ensures Addr(size, semi, p, c, r) == Base(size, semi, p) + PixStride(semi, p) * (r * (size.width / 2) + c)
  {
    var half := size.width / 2;
    assert size.width == 2 * half;
    assert r * (2 * half) == 2 * (r * half);
  }

  lemma AddrInBuffer(size: Size, semi: bool, s: Sample)
    requires Even(size) && InPicture(size, s)
    ensures AddrOf(size, semi, s) < BufferLength(size)
    ensures size.width >= 2
    ensures s.p == Y ==> AddrOf(size, semi, s) < Area(size)
    ensures s.p != Y ==> AddrOf(size, semi, s) >= Base(size, semi, s.p) >= Area(size)
    ensures s.p == U && !semi ==> AddrOf(size, semi, s) < Base(size, semi, V)
  {
    var ps := PlaneSize(size, s.p);
    HalfArea(size);
    RowMajor(ps.width, ps.height, s.c, s.r);
    if s.p != Y {
      ChromaAddr(size, semi, s.p, s.c, s.r);
    }
  }

  /** Distinct samples have distinct addresses: `Locate` recovers the sample. */
  lemma LocateAddr(size: Size, semi: bool, s: Sample)
    requires Even(size) && InPicture(size, s)
    ensures AddrOf(size, semi, s) < BufferLength(size) && size.width >= 2
    ensures Locate(size, semi, AddrOf(size, semi, s)) == s
  {
    var ps := PlaneSize(size, s.p);
    AddrInBuffer(size, semi, s);
    HalfArea(size);
    RowMajor(ps.width, ps.height, s.c, s.r);
    if s.p != Y {
      ChromaAddr(size, semi, s.p, s.c, s.r);
    }
  }

  /** Every byte of the buffer is the address of a sample. */
  lemma AddrLocate(size: Size, semi: bool, k: nat)
    requires Even(size) && k < BufferLength(size)
    ensures size.width >= 2
    ensures InPicture(size, Locate(size, semi, k))
    ensures AddrOf(size, semi, Locate(size, semi, k)) == k
  {
    HalfArea(size);
    assert Area(size) != 0;
    var area, half := Area(size), Half(size);
    var s := Locate(size, semi, k);
    if k < area {
      RowMajorInverse(size.width, size.height, k);
    } else {
      var j := if semi then (k - area) / 2 else if k < area + area / 4 then k - area else k - area - area / 4;
      assert s.c == j % half.width && s.r == j / half.width;
      RowMajorInverse(half.width, half.height, j);
      ChromaAddr(size, semi, s.p, s.c, s.r);
    }
  }

  lemma AddrInjective(size: Size, semi: bool, s: Sample, t: Sample)
    requires Even(size) && InPicture(size, s) && InPicture(size, t)
    requires AddrOf(size, semi, s) == AddrOf(size, semi, t)
    ensures s == t
  {
    LocateAddr(size, semi, s);
    LocateAddr(size, semi, t);
  }
}
