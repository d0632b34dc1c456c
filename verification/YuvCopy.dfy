/**
 The strided copy of a picture region between buffers of either layout, with its two shortcuts: whole
 rows in one block when both sides have the same geometry, and packed rows when pixels are adjacent.
 */
module YuvCopy {
  import opened Arithmetic
  import opened Bytes
  import opened YuvLayout
  import opened YuvPicture

  /** A region of a plane as the copy sees it: plane base, strides and the region's corner. */
  datatype Window = Window(base: nat, rowStride: nat, pixStride: nat, x: nat, y: nat)

  function Loc(win: Window, c: nat, l: nat): nat
  {
    Cell(win.base, win.rowStride, win.pixStride, win.x + c, win.y + l)
  }

  predicate Fits(win: Window, w: nat, h: nat, length: nat)
  {
    win.pixStride >= 1 && w * win.pixStride <= win.rowStride && (w > 0 && h > 0 ==> Loc(win, w - 1, h - 1) < length)
  }

  lemma LocInside(win: Window, w: nat, h: nat, length: nat, c: nat, l: nat)
    requires Fits(win, w, h, length) && c < w && l < h
    ensures Loc(win, c, l) < length
  {
    assert (win.x + c) * win.pixStride <= (win.x + w - 1) * win.pixStride;
    assert (win.y + l) * win.rowStride <= (win.y + h - 1) * win.rowStride;
  }

  lemma LocSplit(win: Window, c: nat, l: nat)
    ensures Loc(win, c, l) == Loc(win, 0, l) + c * win.pixStride
    ensures Loc(win, 0, l + 1) == Loc(win, 0, l) + win.rowStride
    ensures Loc(win, 0, l) == Loc(win, 0, 0) + l * win.rowStride
  {
    assert (win.x + c) * win.pixStride == win.x * win.pixStride + c * win.pixStride;
    assert (win.y + l + 1) * win.rowStride == (win.y + l) * win.rowStride + win.rowStride;
    assert (win.y + l) * win.rowStride == win.y * win.rowStride + l * win.rowStride;
  }

  /** Cells of a region never share an address. */
  lemma LocInjective(win: Window, w: nat, c1: nat, l1: nat, c2: nat, l2: nat)
    requires win.pixStride >= 1 && w * win.pixStride <= win.rowStride && c1 < w && c2 < w
    requires Loc(win, c1, l1) == Loc(win, c2, l2)
    ensures c1 == c2 && l1 == l2
  {
    LocSplit(win, c1, l1);
    LocSplit(win, c2, l2);
    var rs, ps := win.rowStride, win.pixStride;
    assert (l1 - l2) * rs == l1 * rs - l2 * rs && (c2 - c1) * ps == c2 * ps - c1 * ps;
    StridesApart(rs, ps, w, l1 - l2, c2 - c1);
  }

  lemma StridesApart(rs: nat, ps: nat, w: nat, a: int, b: int)
    requires ps >= 1 && w * ps <= rs && 0 - w < b < w && a * rs == b * ps
    ensures a == 0 && b == 0
  {
    MulMonotone(b, w - 1, ps);
    MulMonotone(-b, w - 1, ps);
    assert (w - 1) * ps == w * ps - ps && -b * ps == -(b * ps);
    MulGap(a, rs);
    MulGap(b, ps);
  }

  predicate SameAt(dst: seq<byte>, src: seq<byte>, d: Window, s: Window, c: nat, l: nat)
  {
    Loc(d, c, l) < |dst| && Loc(s, c, l) < |src| && dst[Loc(d, c, l)] == src[Loc(s, c, l)]
  }

  ghost predicate Copied(dst: seq<byte>, src: seq<byte>, d: Window, s: Window, w: nat, h: nat)
  {
    forall c, l :: 0 <= c < w && 0 <= l < h ==> SameAt(dst, src, d, s, c, l)
  }

  /** Byte `k` is a cell of the region. */
  ghost predicate InRegion(win: Window, w: nat, h: nat, k: nat)
  {
    exists c, l :: 0 <= c < w && 0 <= l < h && k == Loc(win, c, l)
  }

  ghost predicate OnRow(start: nat, stride: nat, width: nat, k: nat)
  {
    exists c :: 0 <= c < width && k == At(start, stride, c)
  }

  function At(start: nat, stride: nat, c: nat): nat
  {
    start + c * stride
  }

  lemma AtBound(start: nat, stride: nat, width: nat, length: nat, c: nat)
    requires c < width && At(start, stride, width - 1) < length
    ensures At(start, stride, c) < length
  {
    MulMonotone(c, width - 1, stride);
  }

  lemma StrideOrder(stride: nat, a: nat, b: nat)
    requires stride >= 1
    ensures a < b <==> a * stride < b * stride
  {
    MulGap(b - a, stride);
    assert (b - a) * stride == b * stride - a * stride;
  }

  ghost predicate RowCopied(dst: seq<byte>, w: nat, dstStride: nat, src: seq<byte>, r: nat, srcStride: nat, width: nat)
  {
    forall c :: 0 <= c < width ==> PixelCopied(dst, w, dstStride, src, r, srcStride, c)
  }

  predicate PixelCopied(dst: seq<byte>, w: nat, dstStride: nat, src: seq<byte>, r: nat, srcStride: nat, c: nat)
  {
    && At(w, dstStride, c) < |dst| && At(r, srcStride, c) < |src|
    && dst[At(w, dstStride, c)] == src[At(r, srcStride, c)]
  }

  /** Nothing changed except on the row. */
  ghost predicate OnlyRow(dst: seq<byte>, was: seq<byte>, w: nat, stride: nat, width: nat)
  {
    |dst| == |was| && forall k :: 0 <= k < |dst| && !OnRow(w, stride, width, k) ==> dst[k] == was[k]
  }

  lemma PixelStep(dst: seq<byte>, a: nat, was: seq<byte>, src: seq<byte>, w: nat, dstStride: nat, r: nat,
                  srcStride: nat, c: nat, width: nat)
    requires c < width && dstStride >= 1 && a == At(w, dstStride, c) < |dst| && At(r, srcStride, c) < |src|
    requires RowCopied(dst, w, dstStride, src, r, srcStride, c) && OnlyRow(dst, was, w, dstStride, width)
    ensures var dst' := dst[a := src[At(r, srcStride, c)]];
            RowCopied(dst', w, dstStride, src, r, srcStride, c + 1) && OnlyRow(dst', was, w, dstStride, width)
  {
    var dst' := dst[a := src[At(r, srcStride, c)]];
    assert OnRow(w, dstStride, width, a);
    forall j | 0 <= j < c + 1
      ensures PixelCopied(dst', w, dstStride, src, r, srcStride, j)
    {
      if j < c {
        StrideOrder(dstStride, j, c);
        assert PixelCopied(dst, w, dstStride, src, r, srcStride, j);
      }
    }
  }

  method StridedRowCopy(src: array<byte>, r: nat, dst: array<byte>, w: nat, width: nat, srcStride: nat, dstStride: nat)
    requires dst != src && srcStride >= 1 && dstStride >= 1
    requires width > 0 ==> At(r, srcStride, width - 1) < src.Length && At(w, dstStride, width - 1) < dst.Length
    modifies dst
    ensures RowCopied(dst[..], w, dstStride, src[..], r, srcStride, width)
    ensures OnlyRow(dst[..], old(dst[..]), w, dstStride, width)
  {
    var rPtr, wPtr := r, w;
    var srcEnd, dstEnd := r + width * srcStride, w + width * dstStride;
    ghost var c := 0;
    StrideOrder(srcStride, c, width);
    StrideOrder(dstStride, c, width);
    while rPtr < srcEnd && wPtr < dstEnd
      invariant 0 <= c <= width && rPtr == At(r, srcStride, c) && wPtr == At(w, dstStride, c)
      invariant (c < width <==> rPtr < srcEnd) && (c < width <==> wPtr < dstEnd)
      invariant RowCopied(dst[..], w, dstStride, src[..], r, srcStride, c)
      invariant OnlyRow(dst[..], old(dst[..]), w, dstStride, width)
      decreases width - c
    {
      AtBound(r, srcStride, width, src.Length, c);
      AtBound(w, dstStride, width, dst.Length, c);
      ghost var before := dst[..];
      dst[wPtr] := src[rPtr];
      PixelStep(before, wPtr, old(dst[..]), src[..], w, dstStride, r, srcStride, c, width);
      assert dst[..] == before[wPtr := src[rPtr]];
      rPtr := rPtr + srcStride;
      wPtr := wPtr + dstStride;
      c := c + 1;
      StrideOrder(srcStride, c, width);
      StrideOrder(dstStride, c, width);
    }
  }

  method RowCopy(src: array<byte>, r: nat, dst: array<byte>, w: nat, width: nat, srcStride: nat, dstStride: nat)
    requires dst != src && srcStride >= 1 && dstStride >= 1
    requires width > 0 ==> At(r, srcStride, width - 1) < src.Length && At(w, dstStride, width - 1) < dst.Length
    modifies dst
    ensures RowCopied(dst[..], w, dstStride, src[..], r, srcStride, width)
    ensures OnlyRow(dst[..], old(dst[..]), w, dstStride, width)
  {
    if srcStride == 1 && dstStride == 1 {
      Memcpy(dst, w, src, r, width);
      forall k | 0 <= k < dst.Length && !OnRow(w, dstStride, width, k)
        ensures dst[k] == old(dst[k])
      {
        assert w <= k < w + width ==> k == At(w, 1, k - w);
      }
    } else {
      StridedRowCopy(src, r, dst, w, width, srcStride, dstStride);
    }
  }

  /* ---- one plane ---- */

  /** Both sides have the same geometry: the copy takes whole rows in one block. */
  predicate Block(s: Window, d: Window)
  {
    s.rowStride == d.rowStride && s.pixStride == 1 && d.pixStride == 1 && s.x == d.x && s.y == d.y
  }

  /** The accesses of a plane copy stay inside the buffers. The block shortcut also moves the bytes
      between the rows of the region, so it reaches further than the region itself. */
  predicate InBounds(s: Window, d: Window, w: nat, h: nat, srcLength: nat, dstLength: nat)
  {
    && Fits(s, w, h, srcLength) && Fits(d, w, h, dstLength)
    && (Block(s, d) && d.rowStride * h > 0 ==>
         && Loc(s, 0, 0) + s.rowStride * h <= srcLength
         && Loc(d, 0, 0) + d.rowStride * h <= dstLength)
  }

  /** The bytes a plane copy may change. */
  ghost predicate Touched(s: Window, d: Window, w: nat, h: nat, k: nat)
  {
    if Block(s, d) then Loc(d, 0, 0) <= k < Loc(d, 0, 0) + d.rowStride * h else InRegion(d, w, h, k)
  }

  ghost predicate OnlyTouched(dst: seq<byte>, was: seq<byte>, s: Window, d: Window, w: nat, h: nat)
  {
    |dst| == |was| && forall k :: 0 <= k < |dst| && !Touched(s, d, w, h, k) ==> dst[k] == was[k]
  }

  lemma BlockCopied(dst: seq<byte>, src: seq<byte>, s: Window, d: Window, w: nat, h: nat)
    requires Block(s, d) && InBounds(s, d, w, h, |src|, |dst|)
    requires forall k :: Loc(d, 0, 0) <= k < Loc(d, 0, 0) + d.rowStride * h && k < |dst|
               && Loc(s, 0, 0) + (k - Loc(d, 0, 0)) < |src|
               ==> dst[k] == src[Loc(s, 0, 0) + (k - Loc(d, 0, 0))]
    ensures Copied(dst, src, d, s, w, h)
  {
    forall c, l | 0 <= c < w && 0 <= l < h
      ensures SameAt(dst, src, d, s, c, l)
    {
      LocInside(d, w, h, |dst|, c, l);
      LocInside(s, w, h, |src|, c, l);
      LocSplit(d, c, l);
      LocSplit(s, c, l);
      MulMonotone(l, h - 1, d.rowStride);
      assert (h - 1) * d.rowStride == d.rowStride * h - d.rowStride;
      assert w <= d.rowStride;
    }
  }

  lemma RowStep(dst: seq<byte>, dst': seq<byte>, was: seq<byte>, src: seq<byte>,
                s: Window, d: Window, w: nat, h: nat, l: nat)
    requires l < h && Fits(s, w, h, |src|) && Fits(d, w, h, |dst|) && !Block(s, d)
    requires Copied(dst, src, d, s, w, l) && OnlyTouched(dst, was, s, d, w, h)
    requires RowCopied(dst', Loc(d, 0, l), d.pixStride, src, Loc(s, 0, l), s.pixStride, w)
    requires OnlyRow(dst', dst, Loc(d, 0, l), d.pixStride, w)
    ensures Copied(dst', src, d, s, w, l + 1) && OnlyTouched(dst', was, s, d, w, h)
  {
    forall c, j | 0 <= c < w && 0 <= j < l + 1
      ensures SameAt(dst', src, d, s, c, j)
    {
      LocSplit(d, c, j);
      LocSplit(s, c, j);
      if j == l {
        assert PixelCopied(dst', Loc(d, 0, l), d.pixStride, src, Loc(s, 0, l), s.pixStride, c);
      } else {
        assert SameAt(dst, src, d, s, c, j);
        RowsApart(d, w, c, j, l);
      }
    }
    forall k: nat | OnRow(Loc(d, 0, l), d.pixStride, w, k)
      ensures InRegion(d, w, h, k)
    {
      var c :| 0 <= c < w && k == At(Loc(d, 0, l), d.pixStride, c);
      LocSplit(d, c, l);
      assert k == Loc(d, c, l);
    }
  }

  lemma RowsApart(d: Window, w: nat, c: nat, j: nat, l: nat)
    requires d.pixStride >= 1 && w * d.pixStride <= d.rowStride && c < w && j != l
    ensures !OnRow(Loc(d, 0, l), d.pixStride, w, Loc(d, c, j))
  {
    if e :| 0 <= e < w && Loc(d, c, j) == At(Loc(d, 0, l), d.pixStride, e) {
      LocSplit(d, e, l);
      LocInjective(d, w, c, j, e, l);
    }
  }

  method PlaneCopy(src: array<byte>, s: Window, dst: array<byte>, d: Window, w: nat, h: nat)
    requires dst != src && InBounds(s, d, w, h, src.Length, dst.Length)
    modifies dst
    ensures Copied(dst[..], src[..], d, s, w, h)
    ensures OnlyTouched(dst[..], old(dst[..]), s, d, w, h)
  {
    var rPtr := s.base + (s.y * s.rowStride + s.x * s.pixStride);
    var wPtr := d.base + (d.y * d.rowStride + d.x * d.pixStride);
    if s.rowStride == d.rowStride && s.pixStride == 1 && d.pixStride == 1 && s.x == d.x && s.y == d.y {
      Memcpy(dst, wPtr, src, rPtr, d.rowStride * h);
      BlockCopied(dst[..], src[..], s, d, w, h);
    } else {
      for i := 0 to h
        invariant rPtr == Loc(s, 0, i) && wPtr == Loc(d, 0, i)
        invariant Copied(dst[..], src[..], d, s, w, i)
        invariant OnlyTouched(dst[..], old(dst[..]), s, d, w, h)
      {
        ghost var before := dst[..];
        RowInside(s, w, h, src.Length, i);
        RowInside(d, w, h, dst.Length, i);
        RowCopy(src, rPtr, dst, wPtr, w, s.pixStride, d.pixStride);
        RowStep(before, dst[..], old(dst[..]), src[..], s, d, w, h, i);
        LocSplit(s, 0, i);
        LocSplit(d, 0, i);
        rPtr := rPtr + s.rowStride;
        wPtr := wPtr + d.rowStride;
      }
    }
  }

  lemma RowInside(win: Window, w: nat, h: nat, length: nat, l: nat)
    requires Fits(win, w, h, length) && l < h
    ensures w > 0 ==> At(Loc(win, 0, l), win.pixStride, w - 1) < length
  {
    if w > 0 {
      LocInside(win, w, h, length, w - 1, l);
      LocSplit(win, w - 1, l);
    }
  }

  /* ---- whole pictures ---- */

  function WindowOf(size: Size, semi: bool, roi: Rect, p: Plane): Window
  {
    Window(Base(size, semi, p), RowStride(size, semi, p), PixStride(semi, p), PlaneRect(roi, p).x, PlaneRect(roi, p).y)
  }

  /** Two regions of one shape inside a picture. */
  predicate SameShape(size: Size, from: Rect, to: Rect)
  {
    Even(size) && Inside(from, size) && Inside(to, size) && from.w == to.w && from.h == to.h
  }

  /** The block shortcut on the V plane reaches past the end of the buffer: planar to planar, chroma
      regions at the same place, not at the left edge, down to the last row. */
  predicate Overreach(size: Size, semi1: bool, semi2: bool, from: Rect, to: Rect)
  {
    var a, b := HalfRect(from), HalfRect(to);
    !semi1 && !semi2 && a.x == b.x && a.y == b.y && a.x > 0 && a.h > 0 && a.y + a.h == size.height / 2
  }

  lemma CellIsSample(size: Size, semi: bool, roi: Rect, p: Plane, c: nat, l: nat)
    ensures Loc(WindowOf(size, semi, roi, p), c, l)
         == AddrOf(size, semi, Sample(p, PlaneRect(roi, p).x + c, PlaneRect(roi, p).y + l))
  {
  }

  lemma WindowFits(size: Size, semi: bool, roi: Rect, p: Plane)
    requires Even(size) && Inside(roi, size)
    ensures Fits(WindowOf(size, semi, roi, p), PlaneRect(roi, p).w, PlaneRect(roi, p).h, BufferLength(size))
  {
    var r := PlaneRect(roi, p);
    if r.w > 0 && r.h > 0 {
      CellIsSample(size, semi, roi, p, r.w - 1, r.h - 1);
      AddrInBuffer(size, semi, Sample(p, r.x + r.w - 1, r.y + r.h - 1));
    }
  }

  /** Where whole rows starting at the region's corner end, against the end of the plane. */
  lemma RowsEnd(ps: Size, r: Rect)
    requires Inside(r, ps)
    ensures r.y * ps.width + r.x + ps.width * r.h <= Area(ps) + r.x
    ensures r.y * ps.width + r.x + ps.width * r.h <= Area(ps) <==> r.x == 0 || r.y + r.h < ps.height
  {
    assert r.y * ps.width + ps.width * r.h == (r.y + r.h) * ps.width;
    if r.y + r.h < ps.height {
      MulMonotone(r.y + r.h + 1, ps.height, ps.width);
      assert (r.y + r.h + 1) * ps.width == (r.y + r.h) * ps.width + ps.width;
    } else {
      assert (r.y + r.h) * ps.width == Area(ps);
    }
  }

  /** Where a block copy of a plane ends, against the end of the buffer. */
  lemma BlockEnd(size: Size, roi: Rect, p: Plane)
    requires Even(size) && Inside(roi, size) && PlaneRect(roi, p).h > 0
    ensures var win, r, ps := WindowOf(size, false, roi, p), PlaneRect(roi, p), PlaneSize(size, p);
            Loc(win, 0, 0) + win.rowStride * r.h <= BufferLength(size)
            <==> !(p == V && r.x > 0 && r.y + r.h == ps.height)
  {
    var r, ps, win := PlaneRect(roi, p), PlaneSize(size, p), WindowOf(size, false, roi, p);
    HalfArea(size);
    RowsEnd(ps, r);
    RowFitsArea(Half(size), r.x);
    assert win.rowStride == ps.width && Loc(win, 0, 0) == Base(size, false, p) + r.y * ps.width + r.x;
  }

  lemma RowFitsArea(half: Size, x: nat)
    ensures half.height > 0 && x <= 2 * half.width ==> x <= 2 * Area(half)
    ensures half.height > 0 && x <= half.width ==> x <= Area(half)
  {
    if half.height > 0 {
      MulMonotone(1, half.height, half.width);
    }
  }

  /** Exactly when each plane copy stays inside both buffers. */
  lemma PlaneInBounds(size: Size, semi1: bool, semi2: bool, from: Rect, to: Rect, p: Plane)
    requires SameShape(size, from, to)
    ensures InBounds(WindowOf(size, semi1, from, p), WindowOf(size, semi2, to, p), PlaneRect(from, p).w,
                     PlaneRect(from, p).h, BufferLength(size), BufferLength(size))
        <==> !(p == V && Overreach(size, semi1, semi2, from, to))
  {
    WindowFits(size, semi1, from, p);
    WindowFits(size, semi2, to, p);
    var s, d, h := WindowOf(size, semi1, from, p), WindowOf(size, semi2, to, p), PlaneRect(from, p).h;
    if h > 0 && Block(s, d) {
      assert s == WindowOf(size, false, from, p) && d == WindowOf(size, false, to, p) && s == d;
      BlockEnd(size, from, p);
      if d.rowStride > 0 {
        MulMonotone(1, h, d.rowStride);
      }
    } else {
      assert d.rowStride * h == 0 || !Block(s, d);
    }
  }

  lemma RegionsApart(size: Size, semi: bool, to: Rect, p: Plane, q: Plane, a: Sample)
    requires Even(size) && Inside(to, size) && a.p == p != q && InPicture(size, a)
    ensures !InRegion(WindowOf(size, semi, to, q), PlaneRect(to, q).w, PlaneRect(to, q).h, AddrOf(size, semi, a))
  {
    var d, r := WindowOf(size, semi, to, q), PlaneRect(to, q);
    forall c, l | 0 <= c < r.w && 0 <= l < r.h
      ensures AddrOf(size, semi, a) != Loc(d, c, l)
    {
      var b := Sample(q, r.x + c, r.y + l);
      CellIsSample(size, semi, to, q, c, l);
      LocateAddr(size, semi, a);
      LocateAddr(size, semi, b);
    }
  }

  /** Copying a later plane leaves the cells of an earlier plane alone. */
  lemma LaterPlaneApart(size: Size, semi1: bool, semi2: bool, from: Rect, to: Rect, p: Plane, q: Plane, c: nat, l: nat)
    requires SameShape(size, from, to) && c < PlaneRect(to, p).w && l < PlaneRect(to, p).h
    requires (p == Y && q != Y) || (p == U && q == V)
    ensures !Touched(WindowOf(size, semi1, from, q), WindowOf(size, semi2, to, q), PlaneRect(from, q).w,
                     PlaneRect(from, q).h, Loc(WindowOf(size, semi2, to, p), c, l))
  {
    var a := Sample(p, PlaneRect(to, p).x + c, PlaneRect(to, p).y + l);
    CellIsSample(size, semi2, to, p, c, l);
    if Block(WindowOf(size, semi1, from, q), WindowOf(size, semi2, to, q)) {
      EarlierBelow(size, semi2, to, p, q, a);
    } else {
      AddrInBuffer(size, semi2, a);
      RegionsApart(size, semi2, to, p, q, a);
    }
  }

  lemma EarlierBelow(size: Size, semi: bool, to: Rect, p: Plane, q: Plane, a: Sample)
    requires Even(size) && InPicture(size, a) && a.p == p
    requires (p == Y && q != Y) || (p == U && q == V && !semi)
    ensures AddrOf(size, semi, a) < Loc(WindowOf(size, semi, to, q), 0, 0)
  {
    AddrInBuffer(size, semi, a);
    WindowAboveBase(size, semi, to, q);
  }

  lemma WindowAboveBase(size: Size, semi: bool, roi: Rect, p: Plane)
    ensures Loc(WindowOf(size, semi, roi, p), 0, 0) >= Base(size, semi, p)
  {
  }

  ghost predicate PlaneCopied(dst: seq<byte>, src: seq<byte>, size: Size, semi1: bool, semi2: bool,
                              from: Rect, to: Rect,
                              p: Plane)
  {
    Copied(dst, src, WindowOf(size, semi2, to, p), WindowOf(size, semi1, from, p),
           PlaneRect(from, p).w, PlaneRect(from, p).h)
  }

  ghost predicate AllCopied(dst: seq<byte>, src: seq<byte>, size: Size, semi1: bool, semi2: bool, from: Rect, to: Rect)
  {
    && PlaneCopied(dst, src, size, semi1, semi2, from, to, Y)
    && PlaneCopied(dst, src, size, semi1, semi2, from, to, U)
    && PlaneCopied(dst, src, size, semi1, semi2, from, to, V)
  }

  ghost predicate PlaneTouched(size: Size, semi1: bool, semi2: bool, from: Rect, to: Rect, p: Plane, k: nat)
  {
    Touched(WindowOf(size, semi1, from, p), WindowOf(size, semi2, to, p), PlaneRect(from, p).w, PlaneRect(from, p).h, k)
  }

  ghost predicate OnlyPlane(dst: seq<byte>, was: seq<byte>, size: Size, semi1: bool, semi2: bool, from: Rect, to: Rect,
                            p: Plane)
  {
    OnlyTouched(dst, was, WindowOf(size, semi1, from, p), WindowOf(size, semi2, to, p), PlaneRect(from, p).w,
                PlaneRect(from, p).h)
  }

  lemma KeepsEarlier(dst: seq<byte>, was: seq<byte>, src: seq<byte>, size: Size, semi1: bool, semi2: bool, from: Rect,
                     to: Rect, p: Plane, q: Plane)
    requires SameShape(size, from, to) && ((p == Y && q != Y) || (p == U && q == V))
    requires PlaneCopied(was, src, size, semi1, semi2, from, to, p)
    requires OnlyPlane(dst, was, size, semi1, semi2, from, to, q)
    ensures PlaneCopied(dst, src, size, semi1, semi2, from, to, p)
  {
    var s, d := WindowOf(size, semi1, from, p), WindowOf(size, semi2, to, p);
    forall c, l | 0 <= c < PlaneRect(from, p).w && 0 <= l < PlaneRect(from, p).h
      ensures SameAt(dst, src, d, s, c, l)
    {
      assert SameAt(was, src, d, s, c, l);
      LaterPlaneApart(size, semi1, semi2, from, to, p, q, c, l);
    }
  }

  method CopyOnePlane(src: array<byte>, dst: array<byte>, size: Size, semi1: bool, semi2: bool,
                      from: Rect, to: Rect, p: Plane)
    requires dst != src && src.Length == BufferLength(size) == dst.Length && SameShape(size, from, to)
    requires !(p == V && Overreach(size, semi1, semi2, from, to))
    modifies dst
    ensures PlaneCopied(dst[..], src[..], size, semi1, semi2, from, to, p)
    ensures OnlyPlane(dst[..], old(dst[..]), size, semi1, semi2, from, to, p)
  {
    PlaneInBounds(size, semi1, semi2, from, to, p);
    PlaneCopy(src, WindowOf(size, semi1, from, p), dst, WindowOf(size, semi2, to, p), PlaneRect(from, p).w,
              PlaneRect(from, p).h);
  }

  /* ---- the copy in plain addresses ---- */

  predicate SameLuma(dst: seq<byte>, src: seq<byte>, W: nat, from: Rect, to: Rect, l: nat, c: nat)
  {
    var d, s := LumaAt(W, to.x + c, to.y + l), LumaAt(W, from.x + c, from.y + l);
    d < |dst| && s < |src| && dst[d] == src[s]
  }

  predicate SameChroma(dst: seq<byte>, src: seq<byte>, size: Size, semi1: bool, semi2: bool, second: bool, from: Rect,
                       to: Rect, l: nat, c: nat)
  {
    var d := ChromaAt(size.width, size.height, semi2, second, to.x / 2 + c, to.y / 2 + l);
    var s := ChromaAt(size.width, size.height, semi1, second, from.x / 2 + c, from.y / 2 + l);
    d < |dst| && s < |src| && dst[d] == src[s]
  }

  ghost predicate RegionCopied(dst: seq<byte>, src: seq<byte>, size: Size, semi1: bool, semi2: bool, from: Rect,
                               to: Rect)
  {
    && (forall l, c :: 0 <= l < from.h && 0 <= c < from.w ==> SameLuma(dst, src, size.width, from, to, l, c))
    && (forall second, l, c :: 0 <= l < from.h / 2 && 0 <= c < from.w / 2 ==>
          SameChroma(dst, src, size, semi1, semi2, second, from, to, l, c))
  }

  lemma LumaCell(size: Size, semi: bool, roi: Rect, l: nat, c: nat)
    ensures Loc(WindowOf(size, semi, roi, Y), c, l) == LumaAt(size.width, roi.x + c, roi.y + l)
  {
  }

  lemma ChromaCell(size: Size, semi: bool, second: bool, roi: Rect, l: nat, c: nat)
    ensures Loc(WindowOf(size, semi, roi, if second then V else U), c, l)
         == ChromaAt(size.width, size.height, semi, second, roi.x / 2 + c, roi.y / 2 + l)
  {
  }

  lemma CopiedPlain(dst: seq<byte>, src: seq<byte>, size: Size, semi1: bool, semi2: bool, from: Rect, to: Rect)
    requires AllCopied(dst, src, size, semi1, semi2, from, to)
    ensures RegionCopied(dst, src, size, semi1, semi2, from, to)
  {
    forall l, c | 0 <= l < from.h && 0 <= c < from.w
      ensures SameLuma(dst, src, size.width, from, to, l, c)
    {
      assert SameAt(dst, src, WindowOf(size, semi2, to, Y), WindowOf(size, semi1, from, Y), c, l);
      LumaCell(size, semi2, to, l, c);
      LumaCell(size, semi1, from, l, c);
    }
    forall second: bool, l, c | 0 <= l < from.h / 2 && 0 <= c < from.w / 2
      ensures SameChroma(dst, src, size, semi1, semi2, second, from, to, l, c)
    {
      var p := if second then V else U;
      assert PlaneCopied(dst, src, size, semi1, semi2, from, to, p);
      assert SameAt(dst, src, WindowOf(size, semi2, to, p), WindowOf(size, semi1, from, p), c, l);
      ChromaCell(size, semi2, second, to, l, c);
      ChromaCell(size, semi1, second, from, l, c);
    }
  }

  /** All three planes. `inside` is false where the source's last block copy leaves the buffers; nothing
      more is promised then. */
  method YuvBufCopyWithPixStrides(src: array<byte>, dst: array<byte>, size: Size, semi1: bool, semi2: bool, from: Rect,
                                  to: Rect)
    returns (inside: bool)
    requires dst != src && src.Length == BufferLength(size) == dst.Length && SameShape(size, from, to)
    modifies dst
    ensures inside <==> !Overreach(size, semi1, semi2, from, to)
    ensures inside ==> AllCopied(dst[..], src[..], size, semi1, semi2, from, to)
    ensures inside ==> RegionCopied(dst[..], src[..], size, semi1, semi2, from, to)
    ensures inside ==>
              forall k :: 0 <= k < dst.Length && !(exists p :: PlaneTouched(size, semi1, semi2, from, to, p, k))
                ==> dst[k] == old(dst[k])
  {
    CopyOnePlane(src, dst, size, semi1, semi2, from, to, Y);
    ghost var d1 := dst[..];
    CopyOnePlane(src, dst, size, semi1, semi2, from, to, U);
    ghost var d2 := dst[..];
    KeepsEarlier(d2, d1, src[..], size, semi1, semi2, from, to, Y, U);
    if Overreach(size, semi1, semi2, from, to) {
      return false;
    }
    CopyOnePlane(src, dst, size, semi1, semi2, from, to, V);
    KeepsEarlier(dst[..], d2, src[..], size, semi1, semi2, from, to, Y, V);
    KeepsEarlier(dst[..], d2, src[..], size, semi1, semi2, from, to, U, V);
    forall k | 0 <= k < dst.Length && !(exists p :: PlaneTouched(size, semi1, semi2, from, to, p, k))
      ensures dst[k] == old(dst[k])
    {
      assert !PlaneTouched(size, semi1, semi2, from, to, Y, k);
      assert !PlaneTouched(size, semi1, semi2, from, to, U, k);
      assert !PlaneTouched(size, semi1, semi2, from, to, V, k);
    }
    CopiedPlain(dst[..], src[..], size, semi1, semi2, from, to);
    return true;
  }

  /** A 4 by 4 picture whose right half is copied to its own place: the V plane has two rows of two, and two
      whole rows from its second column on end one byte past the buffer of 24. */
  lemma OverreachExample()
    ensures var size, roi := Size(4, 4), Rect(2, 0, 2, 4);
            && SameShape(size, roi, roi) && Overreach(size, false, false, roi, roi) && BufferLength(size) == 24
            && Loc(WindowOf(size, false, roi, V), 0, 0) + RowStride(size, false, V) * PlaneRect(roi, V).h == 25
  {
  }

  lemma SampleCopied(dst: seq<byte>, src: seq<byte>, size: Size, semi1: bool, semi2: bool,
                     from: Rect, to: Rect, t: Sample)
    requires SameShape(size, from, to) && InRect(PlaneRect(to, t.p), t.c, t.r)
    requires PlaneCopied(dst, src, size, semi1, semi2, from, to, t.p) && PlaneAccepts(src, size, semi1, from, t.p)
    ensures Holds(dst, size, semi2, t, Expected(to, t))
  {
    var a, b := PlaneRect(from, t.p), PlaneRect(to, t.p);
    var c, l := t.c - b.x, t.r - b.y;
    var s := Sample(t.p, a.x + c, a.y + l);
    assert SameAt(dst, src, WindowOf(size, semi2, to, t.p), WindowOf(size, semi1, from, t.p), c, l);
    assert Holds(src, size, semi1, s, Expected(from, s));
    assert t == Sample(t.p, b.x + c, b.y + l);
    SameExpected(from, to, s, t);
    CellCopied(dst, src, size, semi1, semi2, from, to, s, t, c, l);
  }

  /** A sample expects the value of its position within the region, wherever the region lies. */
  lemma SameExpected(from: Rect, to: Rect, s: Sample, t: Sample)
    requires s.p == t.p && from.w == to.w && from.h == to.h
    requires InRect(PlaneRect(to, t.p), t.c, t.r)
    requires s.c - PlaneRect(from, s.p).x == t.c - PlaneRect(to, t.p).x
    requires s.r - PlaneRect(from, s.p).y == t.r - PlaneRect(to, t.p).y
    ensures Expected(from, s) == Expected(to, t)
  {
  }

  lemma CellCopied(dst: seq<byte>, src: seq<byte>, size: Size, semi1: bool, semi2: bool,
                   from: Rect, to: Rect, s: Sample,
                   t: Sample, c: nat, l: nat)
    requires s == Sample(t.p, PlaneRect(from, t.p).x + c, PlaneRect(from, t.p).y + l)
    requires t == Sample(t.p, PlaneRect(to, t.p).x + c, PlaneRect(to, t.p).y + l)
    requires SameAt(dst, src, WindowOf(size, semi2, to, t.p), WindowOf(size, semi1, from, t.p), c, l)
    ensures forall v :: Holds(src, size, semi1, s, v) ==> Holds(dst, size, semi2, t, v)
  {
    CellIsSample(size, semi2, to, t.p, c, l);
    CellIsSample(size, semi1, from, t.p, c, l);
  }

  /** A copied region is accepted at its new place whenever it was accepted at the old one. */
  lemma CopyAccepted(dst: seq<byte>, src: seq<byte>, size: Size, semi1: bool, semi2: bool, from: Rect, to: Rect)
    requires SameShape(size, from, to) && Accepts(src, size, semi1, from)
    requires AllCopied(dst, src, size, semi1, semi2, from, to)
    ensures Accepts(dst, size, semi2, to)
  {
    AcceptsIff(src, size, semi1, from);
    forall t: Sample | InRect(PlaneRect(to, t.p), t.c, t.r)
      ensures Holds(dst, size, semi2, t, Expected(to, t))
    {
      SampleCopied(dst, src, size, semi1, semi2, from, to, t);
    }
  }

  /** Generate, check, copy, check: the first check succeeds for every even buffer, and the second for every
      pair of equal-shaped regions inside it and every pair of layouts unless the copy leaves the buffer. */
  method CopyTest(size: Size, from: Rect, to: Rect, semi1: bool, semi2: bool)
    returns (before: bool, inside: bool, after: bool)
    requires SameShape(size, from, to)
    ensures before && (inside <==> !Overreach(size, semi1, semi2, from, to)) && (inside ==> after)
  {
    var buf1 := GeneratePicture(size, from, semi1);
    var buf2 := new byte[size.width * size.height * 3 / 2](_ => 0);
    GeneratedAccepted(buf1[..], size, semi1, from);
    before := CheckPicture(size, from, semi1, buf1[..]);
    inside := YuvBufCopyWithPixStrides(buf1, buf2, size, semi1, semi2, from, to);
    after := false;
    if inside {
      CopyAccepted(buf2[..], buf1[..], size, semi1, semi2, from, to);
      after := CheckPicture(size, to, semi2, buf2[..]);
    }
  }

  /** The repository's test: the region at the origin, copied in place or slid by the padding. */
  method CopyTestBase(width: nat, height: nat, semi1: bool, semi2: bool, sliding: bool)
    returns (before: bool, after: bool)
    requires width % 2 == 0 && height % 2 == 0
    ensures before && after
  {
    var padding := 16;
    var from := Rect(0, 0, width, height);
    var to := if sliding then from.(x := padding, y := padding) else from;
    var inside: bool;
    before, inside, after := CopyTest(Size(width + padding, height + padding), from, to, semi1, semi2);
  }
}
