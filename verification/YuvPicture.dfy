/**
 The test picture generator and checker. Planes are written and read through a moving pointer; the
 specifications name samples by the stride tables of YuvLayout instead.
 */
module YuvPicture {
  import opened Arithmetic
  import opened Bytes
  import opened YuvLayout

  datatype PixType = PixTypeInvalid | PixTypeY | PixTypeU | PixTypeV

  function TypeOf(p: Plane): PixType
  {
    match p
    case Y => PixTypeY
    case U => PixTypeU
    case V => PixTypeV
  }

  function TypeCode(t: PixType): int
  {
    match t
    case PixTypeInvalid => 0
    case PixTypeY => 64
    case PixTypeU => 128
    case PixTypeV => 192
  }

  /** The two high bits carry the type, the others the index modulo 32. */
  function PixValue(t: PixType, idx: nat): (v: byte)
    ensures t != PixTypeInvalid ==> v != 0
  {
    if t == PixTypeInvalid then 0 else TypeCode(t) + idx % 32
  }

  predicate PixIsValid(t: PixType, idx: nat, value: byte)
  {
    idx % 32 == value % 64 && TypeCode(t) == value / 64 * 64
  }

  /** The one value the checker accepts. */
  function AcceptedValue(t: PixType, idx: nat): byte
  {
    TypeCode(t) + idx % 32
  }

  /** The checker accepts one value; it is the generated one, except that the invalid type generates 0 and
      accepts idx % 32. */
  lemma PixIsValidIff(t: PixType, idx: nat, value: byte)
    ensures PixIsValid(t, idx, value) <==> value == AcceptedValue(t, idx)
    ensures AcceptedValue(t, idx) == PixValue(t, idx) <==> t != PixTypeInvalid || idx % 32 == 0
  {
  }

  /* ---- specification of planes ---- */

  predicate InRoi(size: Size, roi: Rect, k: nat)
    requires size.width > 0
  {
    roi.y <= k / size.width < roi.y + roi.h && roi.x <= k % size.width < roi.x + roi.w
  }

  /** The byte at row-major index `k` of a generated plane. */
  function PlaneByte(t: PixType, size: Size, roi: Rect, k: nat): byte
    requires size.width > 0
  {
    if InRoi(size, roi, k) then PixValue(t, (k / size.width - roi.y) * roi.w + (k % size.width - roi.x)) else 0
  }

  /** What has been written when the pointer stands at `end`: the region of interest up to there. */
  function PartialByte(t: PixType, size: Size, roi: Rect, end: nat, k: nat): byte
    requires size.width > 0
  {
    if k < end then PlaneByte(t, size, roi, k) else 0
  }

  lemma RoiIndex(t: PixType, size: Size, roi: Rect, l: nat, c: nat)
    requires Inside(roi, size) && l < roi.h && c < roi.w
    ensures var k := (roi.y + l) * size.width + roi.x + c;
            k < Area(size) && InRoi(size, roi, k) && PlaneByte(t, size, roi, k) == PixValue(t, l * roi.w + c)
  {
    RowMajor(size.width, size.height, roi.x + c, roi.y + l);
  }

  /** Between the end of one row of the region and the start of the next, nothing belongs to it. */
  lemma RowSkip(size: Size, roi: Rect, l: nat, k: nat)
    requires Inside(roi, size) && l < roi.h && size.width > 0
    requires (roi.y + l) * size.width + roi.x + roi.w <= k < (roi.y + l + 1) * size.width + roi.x
    ensures !InRoi(size, roi, k)
  {
    var w, r := size.width, roi.y + l;
    assert (r + 1) * w == r * w + w;
    if k < (r + 1) * w {
      DivModUnique(k, w, r, k - r * w);
    } else {
      DivModUnique(k, w, r + 1, k - (r + 1) * w);
    }
  }

  lemma BeforeRoi(size: Size, roi: Rect, k: nat)
    requires size.width > 0 && Inside(roi, size)
    requires k < roi.y * size.width + roi.x
    ensures !InRoi(size, roi, k)
  {
    var w := size.width;
    if k / w >= roi.y {
      assert k == k / w * w + k % w;
      MulGap(k / w - roi.y, w);
      assert (k / w - roi.y) * w == k / w * w - roi.y * w;
    }
  }

  lemma AfterRoi(size: Size, roi: Rect, k: nat)
    requires size.width > 0 && k >= (roi.y + roi.h) * size.width
    ensures !InRoi(size, roi, k)
  {
    var w := size.width;
    assert k == k / w * w + k % w;
    MulGap(k / w - (roi.y + roi.h), w);
    assert (k / w - (roi.y + roi.h)) * w == k / w * w - (roi.y + roi.h) * w;
  }

  /** Where the pointer stands before row `l` of the region, in pixels. */
  function RowStart(size: Size, roi: Rect, l: nat): nat
  {
    (roi.y + l) * size.width + roi.x
  }

  lemma NextRow(size: Size, roi: Rect, l: nat)
    requires Inside(roi, size)
    ensures RowStart(size, roi, l) + roi.w + (size.width - roi.w) == RowStart(size, roi, l + 1)
    ensures l < roi.h ==> RowStart(size, roi, l) + roi.w <= Area(size)
  {
    var w := size.width;
    assert (roi.y + l + 1) * w == (roi.y + l) * w + w;
    if l < roi.h {
      assert (roi.y + l + 1) * w <= size.height * w;
    }
  }

  /** Drawing row `l` moves the frontier from one row start to the next. */
  lemma DrawRowAt(t: PixType, size: Size, roi: Rect, l: nat, k: nat)
    requires Inside(roi, size) && l < roi.h && size.width > 0
    ensures var start := RowStart(size, roi, l);
            PartialByte(t, size, roi, RowStart(size, roi, l + 1), k)
            == if start <= k < start + roi.w then PixValue(t, l * roi.w + (k - start))
               else PartialByte(t, size, roi, start, k)
  {
    var start := RowStart(size, roi, l);
    NextRow(size, roi, l);
    if start <= k < start + roi.w {
      RoiIndex(t, size, roi, l, k - start);
    } else if start + roi.w <= k < RowStart(size, roi, l + 1) {
      RowSkip(size, roi, l, k);
    }
  }

  lemma FrontierEnds(t: PixType, size: Size, roi: Rect, k: nat)
    requires Inside(roi, size) && size.width > 0
    ensures PartialByte(t, size, roi, RowStart(size, roi, 0), k) == 0
    ensures PartialByte(t, size, roi, RowStart(size, roi, roi.h), k) == PlaneByte(t, size, roi, k)
  {
    if k < RowStart(size, roi, 0) {
      BeforeRoi(size, roi, k);
    }
    if k >= RowStart(size, roi, roi.h) {
      AfterRoi(size, roi, k);
    }
  }

  /** One row of the region: `w` consecutive bytes from `wptr` on. */
  method WriteRow(buffer: array<byte>, t: PixType, start: nat, first: nat, w: nat)
    requires start + w <= buffer.Length
    modifies buffer
    ensures forall k :: 0 <= k < buffer.Length ==>
              buffer[k] == if start <= k < start + w then PixValue(t, first + (k - start)) else old(buffer[k])
  {
    var wptr, i := start, first;
    for c := 0 to w
      invariant wptr == start + c && i == first + c
      invariant forall k :: 0 <= k < buffer.Length ==>
                  buffer[k] == if start <= k < wptr then PixValue(t, first + (k - start)) else old(buffer[k])
    {
      buffer[wptr] := PixValue(t, i);
      wptr := wptr + 1;
      i := i + 1;
    }
  }

  /* ---- a plane of one type ---- */

  ghost predicate Drawn(s: seq<byte>, t: PixType, size: Size, roi: Rect, end: nat)
    requires size.width > 0
  {
    forall k :: 0 <= k < |s| ==> s[k] == PartialByte(t, size, roi, end, k)
  }

  lemma DrawRow(s0: seq<byte>, s1: seq<byte>, t: PixType, size: Size, roi: Rect, l: nat)
    requires Inside(roi, size) && l < roi.h && size.width > 0 && |s0| == |s1|
    requires Drawn(s0, t, size, roi, RowStart(size, roi, l))
    requires var start := RowStart(size, roi, l);
             forall k :: 0 <= k < |s1| ==>
               s1[k] == if start <= k < start + roi.w then PixValue(t, l * roi.w + (k - start)) else s0[k]
    ensures Drawn(s1, t, size, roi, RowStart(size, roi, l + 1))
  {
    forall k | 0 <= k < |s1|
      ensures s1[k] == PartialByte(t, size, roi, RowStart(size, roi, l + 1), k)
    {
      DrawRowAt(t, size, roi, l, k);
    }
  }

  ghost predicate IsPlane(s: seq<byte>, t: PixType, size: Size, roi: Rect)
  {
    && |s| == Area(size)
    && (size.width > 0 ==> forall k :: 0 <= k < |s| ==> s[k] == PlaneByte(t, size, roi, k))
  }

  lemma PlaneEnds(s: seq<byte>, t: PixType, size: Size, roi: Rect)
    requires Inside(roi, size) && size.width > 0 && |s| == Area(size)
    ensures Drawn(s, t, size, roi, RowStart(size, roi, roi.h)) ==> IsPlane(s, t, size, roi)
    ensures (forall k :: 0 <= k < |s| ==> s[k] == 0) ==> Drawn(s, t, size, roi, RowStart(size, roi, 0))
  {
    forall k: nat { FrontierEnds(t, size, roi, k); }
  }

  lemma NextIndex(l: nat, w: nat)
    ensures (l + 1) * w == l * w + w
  {
  }

  /** The first `l` rows of the region are drawn; the pointer and the index stand before the next one. */
  ghost predicate Painted(s: seq<byte>, t: PixType, size: Size, roi: Rect, l: nat, wptr: nat, i: nat)
  {
    && Inside(roi, size) && size.width > 0 && |s| == Area(size)
    && wptr == RowStart(size, roi, l) && i == l * roi.w
    && Drawn(s, t, size, roi, RowStart(size, roi, l))
  }

  lemma PaintStart(s: seq<byte>, t: PixType, size: Size, roi: Rect)
    requires Inside(roi, size) && size.width > 0 && |s| == Area(size)
    requires forall k :: 0 <= k < |s| ==> s[k] == 0
    ensures Painted(s, t, size, roi, 0, roi.y * size.width + roi.x, 0)
  {
    PlaneEnds(s, t, size, roi);
  }

  lemma PaintEnd(s: seq<byte>, t: PixType, size: Size, roi: Rect, wptr: nat, i: nat)
    requires Painted(s, t, size, roi, roi.h, wptr, i)
    ensures IsPlane(s, t, size, roi)
  {
    PlaneEnds(s, t, size, roi);
  }

  /** Row `l` of the region; the pointer and the index move on to the next row. */
  method MakeRow(buffer: array<byte>, t: PixType, size: Size, roi: Rect, wptr: nat, i: nat, ghost l: nat)
    returns (wptr': nat, i': nat)
    requires l < roi.h && Painted(buffer[..], t, size, roi, l, wptr, i)
    modifies buffer
    ensures Painted(buffer[..], t, size, roi, l + 1, wptr', i')
  {
    NextRow(size, roi, l);
    NextIndex(l, roi.w);
    ghost var before := buffer[..];
    WriteRow(buffer, t, wptr, i, roi.w);
    DrawRow(before, buffer[..], t, size, roi, l);
    wptr' := wptr + roi.w + (size.width - roi.w);
    i' := i + roi.w;
  }

  method FillPlane(buffer: array<byte>, t: PixType, size: Size, roi: Rect)
    requires Inside(roi, size) && size.width > 0 && buffer.Length == Area(size)
    requires forall k :: 0 <= k < buffer.Length ==> buffer[k] == 0
    modifies buffer
    ensures IsPlane(buffer[..], t, size, roi)
  {
    var wptr := roi.y * size.width + roi.x;
    var i := 0;
    PaintStart(buffer[..], t, size, roi);
    for l := 0 to roi.h
      invariant wptr >= 0 && i >= 0 && Painted(buffer[..], t, size, roi, l, wptr, i)
    {
      wptr, i := MakeRow(buffer, t, size, roi, wptr, i, l);
    }
    PaintEnd(buffer[..], t, size, roi, wptr, i);
  }

  method MakePlane(t: PixType, size: Size, roi: Rect) returns (buffer: array<byte>)
    requires Inside(roi, size)
    ensures fresh(buffer) && IsPlane(buffer[..], t, size, roi)
  {
    var buflen := Area(size);
    buffer := new byte[buflen](_ => 0);
    if size.width > 0 {
      FillPlane(buffer, t, size, roi);
    }
  }

  /* ---- two types interleaved, two bytes per pixel ---- */

  method WriteInterleavedRow(buffer: array<byte>, t1: PixType, t2: PixType, start: nat, first: nat, w: nat)
    requires (start + w) * 2 <= buffer.Length
    modifies buffer
    ensures forall b :: 0 <= b < buffer.Length ==>
              buffer[b] == if start <= b / 2 < start + w
                           then PixValue(if b % 2 == 0 then t1 else t2, first + (b / 2 - start)) else old(buffer[b])
  {
    var wptr, i := start * 2, first;
    for c := 0 to w
      invariant wptr == (start + c) * 2 && i == first + c
      invariant forall b :: 0 <= b < buffer.Length ==>
                  buffer[b] == if start <= b / 2 < start + c
                               then PixValue(if b % 2 == 0 then t1 else t2, first + (b / 2 - start)) else old(buffer[b])
    {
      buffer[wptr] := PixValue(t1, i);
      buffer[wptr + 1] := PixValue(t2, i);
      wptr := wptr + 2;
      i := i + 1;
    }
  }

  ghost predicate DrawnPairs(s: seq<byte>, t1: PixType, t2: PixType, size: Size, roi: Rect, end: nat)
    requires size.width > 0
  {
    forall b :: 0 <= b < |s| ==> s[b] == PartialByte(if b % 2 == 0 then t1 else t2, size, roi, end, b / 2)
  }

  lemma DrawPairs(s0: seq<byte>, s1: seq<byte>, t1: PixType, t2: PixType, size: Size, roi: Rect, l: nat)
    requires Inside(roi, size) && l < roi.h && size.width > 0 && |s0| == |s1|
    requires DrawnPairs(s0, t1, t2, size, roi, RowStart(size, roi, l))
    requires var start := RowStart(size, roi, l);
             forall b :: 0 <= b < |s1| ==>
               s1[b] == if start <= b / 2 < start + roi.w
                        then PixValue(if b % 2 == 0 then t1 else t2, l * roi.w + (b / 2 - start)) else s0[b]
    ensures DrawnPairs(s1, t1, t2, size, roi, RowStart(size, roi, l + 1))
  {
    forall b | 0 <= b < |s1|
      ensures s1[b] == PartialByte(if b % 2 == 0 then t1 else t2, size, roi, RowStart(size, roi, l + 1), b / 2)
    {
      DrawRowAt(if b % 2 == 0 then t1 else t2, size, roi, l, b / 2);
    }
  }

  ghost predicate IsInterleaved(s: seq<byte>, t1: PixType, t2: PixType, size: Size, roi: Rect)
  {
    && |s| == Area(size) * 2
    && (size.width > 0 ==>
         forall b :: 0 <= b < |s| ==> s[b] == PlaneByte(if b % 2 == 0 then t1 else t2, size, roi, b / 2))
  }

  lemma PairsEnd(s: seq<byte>, t1: PixType, t2: PixType, size: Size, roi: Rect)
    requires Inside(roi, size) && size.width > 0 && |s| == Area(size) * 2
    ensures DrawnPairs(s, t1, t2, size, roi, RowStart(size, roi, roi.h)) ==> IsInterleaved(s, t1, t2, size, roi)
    ensures (forall b :: 0 <= b < |s| ==> s[b] == 0) ==> DrawnPairs(s, t1, t2, size, roi, RowStart(size, roi, 0))
  {
    forall t: PixType, k: nat { FrontierEnds(t, size, roi, k); }
  }

  ghost predicate PaintedPairs(s: seq<byte>, t1: PixType, t2: PixType, size: Size, roi: Rect, l: nat, wptr: nat, i: nat)
  {
    && Inside(roi, size) && size.width > 0 && |s| == Area(size) * 2
    && wptr == RowStart(size, roi, l) * 2 && i == l * roi.w
    && DrawnPairs(s, t1, t2, size, roi, RowStart(size, roi, l))
  }

  lemma PaintPairsStart(s: seq<byte>, t1: PixType, t2: PixType, size: Size, roi: Rect)
    requires Inside(roi, size) && size.width > 0 && |s| == Area(size) * 2
    requires forall k :: 0 <= k < |s| ==> s[k] == 0
    ensures PaintedPairs(s, t1, t2, size, roi, 0, (roi.y * size.width + roi.x) * 2, 0)
  {
    PairsEnd(s, t1, t2, size, roi);
  }

  lemma PaintPairsEnd(s: seq<byte>, t1: PixType, t2: PixType, size: Size, roi: Rect, wptr: nat, i: nat)
    requires PaintedPairs(s, t1, t2, size, roi, roi.h, wptr, i)
    ensures IsInterleaved(s, t1, t2, size, roi)
  {
    PairsEnd(s, t1, t2, size, roi);
  }

  method MakeInterleavedRow(buffer: array<byte>, t1: PixType, t2: PixType, size: Size, roi: Rect, wptr: nat, i: nat,
                            ghost l: nat)
    returns (wptr': nat, i': nat)
    requires l < roi.h && PaintedPairs(buffer[..], t1, t2, size, roi, l, wptr, i)
    modifies buffer
    ensures PaintedPairs(buffer[..], t1, t2, size, roi, l + 1, wptr', i')
  {
    NextRow(size, roi, l);
    NextIndex(l, roi.w);
    ghost var before := buffer[..];
    WriteInterleavedRow(buffer, t1, t2, wptr / 2, i, roi.w);
    DrawPairs(before, buffer[..], t1, t2, size, roi, l);
    wptr' := wptr + roi.w * 2 + (size.width - roi.w) * 2;
    i' := i + roi.w;
  }

  method FillInterleavePlane(buffer: array<byte>, t1: PixType, t2: PixType, size: Size, roi: Rect)
    requires Inside(roi, size) && size.width > 0 && buffer.Length == Area(size) * 2
    requires forall k :: 0 <= k < buffer.Length ==> buffer[k] == 0
    modifies buffer
    ensures IsInterleaved(buffer[..], t1, t2, size, roi)
  {
    var wptr := (roi.y * size.width + roi.x) * 2;
    var i := 0;
    PaintPairsStart(buffer[..], t1, t2, size, roi);
    for l := 0 to roi.h
      invariant wptr >= 0 && i >= 0 && PaintedPairs(buffer[..], t1, t2, size, roi, l, wptr, i)
    {
      wptr, i := MakeInterleavedRow(buffer, t1, t2, size, roi, wptr, i, l);
    }
    PaintPairsEnd(buffer[..], t1, t2, size, roi, wptr, i);
  }

  method MakeInterleavePlane(t1: PixType, t2: PixType, size: Size, roi: Rect) returns (buffer: array<byte>)
    requires Inside(roi, size)
    ensures fresh(buffer) && IsInterleaved(buffer[..], t1, t2, size, roi)
  {
    var buflen := Area(size) * 2;
    buffer := new byte[buflen](_ => 0);
    if size.width > 0 {
      FillInterleavePlane(buffer, t1, t2, size, roi);
    }
  }

  /* ---- pictures ---- */

  predicate InRect(r: Rect, c: nat, row: nat)
  {
    r.x <= c < r.x + r.w && r.y <= row < r.y + r.h
  }

  /** The value a generated picture holds for a sample. */
  function Expected(roi: Rect, s: Sample): byte
  {
    var r := PlaneRect(roi, s.p);
    if InRect(r, s.c, s.r) then PixValue(TypeOf(s.p), (s.r - r.y) * r.w + (s.c - r.x)) else 0
  }

  predicate Holds(buf: seq<byte>, size: Size, semi: bool, s: Sample, v: byte)
  {
    AddrOf(size, semi, s) < |buf| && buf[AddrOf(size, semi, s)] == v
  }

  /** Every sample of the picture, inside the region or not, has its expected value. */
  ghost predicate Generated(buf: seq<byte>, size: Size, semi: bool, roi: Rect)
  {
    |buf| == BufferLength(size) && forall s :: InPicture(size, s) ==> Holds(buf, size, semi, s, Expected(roi, s))
  }

  /** Every sample of the region has its expected value. */
  ghost predicate Accepts(buf: seq<byte>, size: Size, semi: bool, roi: Rect)
  {
    forall s: Sample :: InRect(PlaneRect(roi, s.p), s.c, s.r) ==> Holds(buf, size, semi, s, Expected(roi, s))
  }

  lemma PlaneSample(t: PixType, size: Size, roi: Rect, c: nat, r: nat)
    requires c < size.width && r < size.height
    ensures PlaneByte(t, size, roi, r * size.width + c)
         == if InRect(roi, c, r) then PixValue(t, (r - roi.y) * roi.w + (c - roi.x)) else 0
  {
    RowMajor(size.width, size.height, c, r);
  }

  lemma LumaHolds(buf: seq<byte>, y: seq<byte>, rest: seq<byte>, size: Size, semi: bool, roi: Rect, s: Sample)
    requires Even(size) && IsPlane(y, PixTypeY, size, roi) && buf == y + rest
    requires InPicture(size, s) && s.p == Y
    ensures Holds(buf, size, semi, s, Expected(roi, s))
  {
    PlaneSample(PixTypeY, size, roi, s.c, s.r);
    AddrInBuffer(size, semi, s);
  }

  lemma PlanarChromaHolds(buf: seq<byte>, y: seq<byte>, u: seq<byte>, v: seq<byte>, size: Size, roi: Rect, s: Sample)
    requires Even(size) && |y| == Area(size) && buf == y + u + v
    requires IsPlane(u, PixTypeU, Half(size), HalfRect(roi)) && IsPlane(v, PixTypeV, Half(size), HalfRect(roi))
    requires InPicture(size, s) && s.p != Y
    ensures Holds(buf, size, false, s, Expected(roi, s))
  {
    var half := Half(size);
    HalfArea(size);
    PlaneSample(TypeOf(s.p), half, HalfRect(roi), s.c, s.r);
    ChromaAddr(size, false, s.p, s.c, s.r);
    RowMajor(half.width, half.height, s.c, s.r);
    var k := s.r * half.width + s.c;
    assert s.p == U ==> buf[Area(size) + k] == u[k];
    assert s.p == V ==> buf[Area(size) + |u| + k] == v[k];
  }

  lemma SemiPlanarChromaHolds(buf: seq<byte>, y: seq<byte>, uv: seq<byte>, size: Size, roi: Rect, s: Sample)
    requires Even(size) && |y| == Area(size) && buf == y + uv
    requires IsInterleaved(uv, PixTypeU, PixTypeV, Half(size), HalfRect(roi))
    requires InPicture(size, s) && s.p != Y
    ensures Holds(buf, size, true, s, Expected(roi, s))
  {
    var half := Half(size);
    HalfArea(size);
    PlaneSample(TypeOf(s.p), half, HalfRect(roi), s.c, s.r);
    ChromaAddr(size, true, s.p, s.c, s.r);
    RowMajor(half.width, half.height, s.c, s.r);
    var k := s.r * half.width + s.c;
    var b := if s.p == U then 2 * k else 2 * k + 1;
    assert buf[Area(size) + b] == uv[b];
    assert b / 2 == k;
  }

  lemma PlanarGenerated(buf: seq<byte>, y: seq<byte>, u: seq<byte>, v: seq<byte>, size: Size, roi: Rect)
    requires Even(size) && buf == y + u + v && IsPlane(y, PixTypeY, size, roi)
    requires IsPlane(u, PixTypeU, Half(size), HalfRect(roi)) && IsPlane(v, PixTypeV, Half(size), HalfRect(roi))
    ensures Generated(buf, size, false, roi)
  {
    HalfArea(size);
    forall s | InPicture(size, s)
      ensures Holds(buf, size, false, s, Expected(roi, s))
    {
      if s.p == Y {
        Assoc(y, u, v);
        LumaHolds(buf, y, u + v, size, false, roi, s);
      } else {
        PlanarChromaHolds(buf, y, u, v, size, roi, s);
      }
    }
  }

  lemma SemiPlanarGenerated(buf: seq<byte>, y: seq<byte>, uv: seq<byte>, size: Size, roi: Rect)
    requires Even(size) && buf == y + uv && IsPlane(y, PixTypeY, size, roi)
    requires IsInterleaved(uv, PixTypeU, PixTypeV, Half(size), HalfRect(roi))
    ensures Generated(buf, size, true, roi)
  {
    HalfArea(size);
    forall s | InPicture(size, s)
      ensures Holds(buf, size, true, s, Expected(roi, s))
    {
      if s.p == Y {
        LumaHolds(buf, y, uv, size, true, roi, s);
      } else {
        SemiPlanarChromaHolds(buf, y, uv, size, roi, s);
      }
    }
  }

  /** Copies the whole of `src` to `dst` at `off`. */
  method Place(dst: array<byte>, off: nat, src: array<byte>)
    requires dst != src && off + src.Length <= dst.Length
    modifies dst
    ensures dst[..off] == old(dst[..off])
    ensures dst[..off + src.Length] == dst[..off] + src[..]
  {
    Memcpy(dst, off, src, 0, src.Length);
  }

  method AddPlanarChroma(buffer: array<byte>, half: Size, roi: Rect, planelen: nat)
    returns (ghost u: seq<byte>, ghost v: seq<byte>)
    requires Inside(roi, half) && buffer.Length == planelen + Area(half) + Area(half)
    modifies buffer
    ensures IsPlane(u, PixTypeU, half, roi) && IsPlane(v, PixTypeV, half, roi)
    ensures buffer[..] == old(buffer[..planelen]) + u + v
  {
    var uPlane := MakePlane(PixTypeU, half, roi);
    var vPlane := MakePlane(PixTypeV, half, roi);
    u, v := uPlane[..], vPlane[..];
    Place(buffer, planelen, uPlane);
    Place(buffer, planelen + uPlane.Length, vPlane);
    assert buffer[..] == buffer[..buffer.Length];
  }

  method AddInterleavedChroma(buffer: array<byte>, half: Size, roi: Rect, planelen: nat) returns (ghost uv: seq<byte>)
    requires Inside(roi, half) && buffer.Length == planelen + Area(half) * 2
    modifies buffer
    ensures IsInterleaved(uv, PixTypeU, PixTypeV, half, roi)
    ensures buffer[..] == old(buffer[..planelen]) + uv
  {
    var pairs := MakeInterleavePlane(PixTypeU, PixTypeV, half, roi);
    uv := pairs[..];
    Place(buffer, planelen, pairs);
    assert buffer[..] == buffer[..buffer.Length];
  }

  method GeneratePicture(size: Size, roi: Rect, semi: bool) returns (buffer: array<byte>)
    requires Even(size) && Inside(roi, size)
    ensures fresh(buffer) && Generated(buffer[..], size, semi, roi)
    ensures RegionBytes(buffer[..], size.width, size.height, semi, roi)
  {
    var half, halfRoi, planelen := Half(size), HalfRect(roi), size.width * size.height;
    HalfArea(size);
    buffer := new byte[planelen * 3 / 2](_ => 0);
    var yPlane := MakePlane(PixTypeY, size, roi);
    Place(buffer, 0, yPlane);
    ghost var y := yPlane[..];
    assert buffer[..planelen] == y;
    if !semi {
      ghost var u, v := AddPlanarChroma(buffer, half, halfRoi, planelen);
      PlanarGenerated(buffer[..], y, u, v, size, roi);
    } else {
      ghost var uv := AddInterleavedChroma(buffer, half, halfRoi, planelen);
      SemiPlanarGenerated(buffer[..], y, uv, size, roi);
    }
    GeneratedAccepted(buffer[..], size, semi, roi);
    AcceptsPlain(buffer[..], size, semi, roi);
  }

  /* ---- the checker ---- */

  predicate PixelOk(buf: seq<byte>, off: nat, stride: nat, t: PixType, size: Size, roi: Rect, l: nat, c: nat)
  {
    var a := off + (RowStart(size, roi, l) + c) * stride;
    a < |buf| && buf[a] == AcceptedValue(t, l * roi.w + c)
  }

  ghost predicate RowOk(buf: seq<byte>, off: nat, stride: nat, t: PixType, size: Size, roi: Rect, l: nat, w: nat)
  {
    forall c :: 0 <= c < w ==> PixelOk(buf, off, stride, t, size, roi, l, c)
  }

  ghost predicate RowsOk(buf: seq<byte>, off: nat, stride: nat, t: PixType, size: Size, roi: Rect, h: nat)
  {
    forall l :: 0 <= l < h ==> RowOk(buf, off, stride, t, size, roi, l, roi.w)
  }

  /** The pointer and the index before row `l`, one or two bytes a pixel. */
  ghost predicate AtRow(size: Size, roi: Rect, off: nat, stride: nat, l: nat, rptr: nat, i: nat)
  {
    && Inside(roi, size) && i == l * roi.w
    && rptr == off + if stride == 1 then RowStart(size, roi, l) else RowStart(size, roi, l) * 2
  }

  lemma AtFirstRow(size: Size, roi: Rect, off: nat)
    requires Inside(roi, size)
    ensures AtRow(size, roi, off, 1, 0, off + (roi.y * size.width + roi.x), 0)
    ensures AtRow(size, roi, off, 2, 0, off + (roi.y * size.width + roi.x) * 2, 0)
  {
  }

  lemma AtNextRow(size: Size, roi: Rect, off: nat, stride: nat, l: nat, rptr: nat, i: nat)
    requires AtRow(size, roi, off, stride, l, rptr, i) && l < roi.h
    ensures stride == 1 ==> AtRow(size, roi, off, stride, l + 1, rptr + roi.w + (size.width - roi.w), i + roi.w)
    ensures stride == 1 ==> rptr + roi.w <= off + Area(size)
    ensures stride == 2 ==> AtRow(size, roi, off, stride, l + 1, rptr + roi.w * 2 + (size.width - roi.w) * 2, i + roi.w)
    ensures stride == 2 ==> rptr + roi.w * 2 <= off + Area(size) * 2
  {
    NextRow(size, roi, l);
    NextIndex(l, roi.w);
  }

  /** One row of a plane. */
  method CheckRow(t: PixType, size: Size, roi: Rect, buf: seq<byte>, off: nat, start: nat, first: nat, ghost l: nat)
    returns (ok: bool)
    requires l < roi.h && AtRow(size, roi, off, 1, l, start, first) && start + roi.w <= |buf|
    ensures ok <==> RowOk(buf, off, 1, t, size, roi, l, roi.w)
  {
    var rptr, i := start, first;
    for c := 0 to roi.w
      invariant rptr == start + c && i == first + c
      invariant RowOk(buf, off, 1, t, size, roi, l, c)
    {
      PixIsValidIff(t, i, buf[rptr]);
      if !PixIsValid(t, i, buf[rptr]) {
        assert !PixelOk(buf, off, 1, t, size, roi, l, c);
        return false;
      }
      rptr := rptr + 1;
      i := i + 1;
    }
    return true;
  }

  method CheckPlane(t: PixType, size: Size, roi: Rect, buf: seq<byte>, off: nat) returns (ok: bool)
    requires Inside(roi, size) && off + Area(size) <= |buf|
    ensures ok <==> RowsOk(buf, off, 1, t, size, roi, roi.h)
  {
    var rptr := off + (roi.y * size.width + roi.x);
    var i := 0;
    AtFirstRow(size, roi, off);
    for l := 0 to roi.h
      invariant rptr >= 0 && i >= 0 && AtRow(size, roi, off, 1, l, rptr, i)
      invariant RowsOk(buf, off, 1, t, size, roi, l)
    {
      AtNextRow(size, roi, off, 1, l, rptr, i);
      ok := CheckRow(t, size, roi, buf, off, rptr, i, l);
      if !ok {
        return;
      }
      rptr := rptr + roi.w + (size.width - roi.w);
      i := i + roi.w;
    }
    return true;
  }

  /** One row of two interleaved planes. */
  method CheckInterleavedRow(t1: PixType, t2: PixType, size: Size, roi: Rect, buf: seq<byte>, off: nat, start: nat,
                             first: nat, ghost l: nat)
    returns (ok: bool)
    requires l < roi.h && AtRow(size, roi, off, 2, l, start, first) && start + roi.w * 2 <= |buf|
    ensures ok <==> RowOk(buf, off, 2, t1, size, roi, l, roi.w) && RowOk(buf, off + 1, 2, t2, size, roi, l, roi.w)
  {
    var rptr, i := start, first;
    for c := 0 to roi.w
      invariant rptr == start + c * 2 && i == first + c
      invariant RowOk(buf, off, 2, t1, size, roi, l, c) && RowOk(buf, off + 1, 2, t2, size, roi, l, c)
    {
      PixIsValidIff(t1, i, buf[rptr]);
      PixIsValidIff(t2, i, buf[rptr + 1]);
      if !PixIsValid(t1, i, buf[rptr]) {
        assert !PixelOk(buf, off, 2, t1, size, roi, l, c);
        return false;
      }
      if !PixIsValid(t2, i, buf[rptr + 1]) {
        assert !PixelOk(buf, off + 1, 2, t2, size, roi, l, c);
        return false;
      }
      rptr := rptr + 2;
      i := i + 1;
    }
    return true;
  }

  method CheckInterleavePlane(t1: PixType, t2: PixType, size: Size, roi: Rect, buf: seq<byte>, off: nat)
    returns (ok: bool)
    requires Inside(roi, size) && off + Area(size) * 2 <= |buf|
    ensures ok <==> RowsOk(buf, off, 2, t1, size, roi, roi.h) && RowsOk(buf, off + 1, 2, t2, size, roi, roi.h)
  {
    var rptr := off + (roi.y * size.width + roi.x) * 2;
    var i := 0;
    AtFirstRow(size, roi, off);
    for l := 0 to roi.h
      invariant rptr >= 0 && i >= 0 && AtRow(size, roi, off, 2, l, rptr, i)
      invariant RowsOk(buf, off, 2, t1, size, roi, l) && RowsOk(buf, off + 1, 2, t2, size, roi, l)
    {
      AtNextRow(size, roi, off, 2, l, rptr, i);
      ok := CheckInterleavedRow(t1, t2, size, roi, buf, off, rptr, i, l);
      if !ok {
        return;
      }
      rptr := rptr + roi.w * 2 + (size.width - roi.w) * 2;
      i := i + roi.w;
    }
    return true;
  }

  /** The region of one plane, named through the stride tables. */
  ghost predicate PlaneAccepts(buf: seq<byte>, size: Size, semi: bool, roi: Rect, p: Plane)
  {
    forall s: Sample :: s.p == p && InRect(PlaneRect(roi, p), s.c, s.r) ==> Holds(buf, size, semi, s, Expected(roi, s))
  }

  /** The moving pointer visits the addresses of the stride tables. */
  lemma PointerAddr(size: Size, semi: bool, roi: Rect, p: Plane, l: nat, c: nat)
    requires Even(size)
    ensures var r := PlaneRect(roi, p);
            Base(size, semi, p) + (RowStart(PlaneSize(size, p), r, l) + c) * PixStride(semi, p)
            == Addr(size, semi, p, r.x + c, r.y + l)
  {
    if p != Y {
      ChromaAddr(size, semi, p, HalfRect(roi).x + c, HalfRect(roi).y + l);
    }
  }

  lemma PixelOkIff(buf: seq<byte>, size: Size, semi: bool, roi: Rect, p: Plane, l: nat, c: nat)
    requires Even(size) && l < PlaneRect(roi, p).h && c < PlaneRect(roi, p).w
    ensures var r := PlaneRect(roi, p);
            var s := Sample(p, r.x + c, r.y + l);
            PixelOk(buf, Base(size, semi, p), PixStride(semi, p), TypeOf(p), PlaneSize(size, p), r, l, c)
            <==> Holds(buf, size, semi, s, Expected(roi, s))
  {
    PointerAddr(size, semi, roi, p, l, c);
  }

  lemma RowsOkIff(buf: seq<byte>, size: Size, semi: bool, roi: Rect, p: Plane)
    requires Even(size)
    ensures RowsOk(buf, Base(size, semi, p), PixStride(semi, p), TypeOf(p), PlaneSize(size, p), PlaneRect(roi, p),
                   PlaneRect(roi, p).h)
        <==> PlaneAccepts(buf, size, semi, roi, p)
  {
    var r, ps, t := PlaneRect(roi, p), PlaneSize(size, p), TypeOf(p);
    var off, stride := Base(size, semi, p), PixStride(semi, p);
    if RowsOk(buf, off, stride, t, ps, r, r.h) {
      forall s: Sample | s.p == p && InRect(r, s.c, s.r)
        ensures Holds(buf, size, semi, s, Expected(roi, s))
      {
        assert RowOk(buf, off, stride, t, ps, r, s.r - r.y, r.w);
        PixelOkIff(buf, size, semi, roi, p, s.r - r.y, s.c - r.x);
        assert s == Sample(p, r.x + (s.c - r.x), r.y + (s.r - r.y));
      }
    }
    if PlaneAccepts(buf, size, semi, roi, p) {
      forall l, c | 0 <= l < r.h && 0 <= c < r.w
        ensures PixelOk(buf, off, stride, t, ps, r, l, c)
      {
        PixelOkIff(buf, size, semi, roi, p, l, c);
      }
    }
  }

  /* ---- the same in plain addresses ---- */

  /** Column `x`, row `y` of the first (U) or second (V) chroma plane of a W by H picture. */
  function ChromaAt(W: nat, H: nat, semi: bool, second: bool, x: nat, y: nat): nat
  {
    if semi then W * H + y * W + x * 2 + (if second then 1 else 0)
    else W * H + (if second then W * H / 4 else 0) + y * (W / 2) + x
  }

  predicate LumaByte(buf: seq<byte>, W: nat, roi: Rect, l: nat, c: nat)
  {
    var a := (roi.y + l) * W + (roi.x + c);
    a < |buf| && buf[a] == 64 + (l * roi.w + c) % 32
  }

  predicate ChromaByte(buf: seq<byte>, W: nat, H: nat, semi: bool, second: bool, roi: Rect, l: nat, c: nat)
  {
    var a := ChromaAt(W, H, semi, second, roi.x / 2 + c, roi.y / 2 + l);
    a < |buf| && buf[a] == (if second then 192 else 128) + (l * (roi.w / 2) + c) % 32
  }

  /** Luma values from 64 on over the region, U values from 128 and V values from 192 over its half-sized image. */
  ghost predicate RegionBytes(buf: seq<byte>, W: nat, H: nat, semi: bool, roi: Rect)
  {
    && (forall l, c :: 0 <= l < roi.h && 0 <= c < roi.w ==> LumaByte(buf, W, roi, l, c))
    && (forall l, c :: 0 <= l < roi.h / 2 && 0 <= c < roi.w / 2 ==> ChromaByte(buf, W, H, semi, false, roi, l, c))
    && (forall l, c :: 0 <= l < roi.h / 2 && 0 <= c < roi.w / 2 ==> ChromaByte(buf, W, H, semi, true, roi, l, c))
  }

  /** The sample at column `c`, row `l` of a plane's region. */
  function RegionSample(roi: Rect, p: Plane, l: nat, c: nat): Sample
  {
    Sample(p, PlaneRect(roi, p).x + c, PlaneRect(roi, p).y + l)
  }

  lemma LumaPlain(buf: seq<byte>, size: Size, semi: bool, roi: Rect, l: nat, c: nat)
    requires l < roi.h && c < roi.w
    ensures var s := RegionSample(roi, Y, l, c);
            Holds(buf, size, semi, s, Expected(roi, s)) <==> LumaByte(buf, size.width, roi, l, c)
  {
  }

  lemma ChromaPlain(buf: seq<byte>, size: Size, semi: bool, roi: Rect, second: bool, l: nat, c: nat)
    requires l < roi.h / 2 && c < roi.w / 2
    ensures var s := RegionSample(roi, if second then V else U, l, c);
            Holds(buf, size, semi, s, Expected(roi, s))
            <==> ChromaByte(buf, size.width, size.height, semi, second, roi, l, c)
  {
  }

  lemma RegionOf(roi: Rect, s: Sample)
    requires InRect(PlaneRect(roi, s.p), s.c, s.r)
    ensures var l, c := s.r - PlaneRect(roi, s.p).y, s.c - PlaneRect(roi, s.p).x;
            l < PlaneRect(roi, s.p).h && c < PlaneRect(roi, s.p).w && s == RegionSample(roi, s.p, l, c)
  {
  }

  /** What the checker accepts, without regions of planes or tables of strides. */
  lemma AcceptsPlain(buf: seq<byte>, size: Size, semi: bool, roi: Rect)
    ensures Accepts(buf, size, semi, roi) <==> RegionBytes(buf, size.width, size.height, semi, roi)
  {
    if Accepts(buf, size, semi, roi) {
      forall l, c | 0 <= l < roi.h && 0 <= c < roi.w ensures LumaByte(buf, size.width, roi, l, c) {
        LumaPlain(buf, size, semi, roi, l, c);
        assert InRect(PlaneRect(roi, Y), RegionSample(roi, Y, l, c).c, RegionSample(roi, Y, l, c).r);
      }
      forall second: bool, l, c | 0 <= l < roi.h / 2 && 0 <= c < roi.w / 2
        ensures ChromaByte(buf, size.width, size.height, semi, second, roi, l, c)
      {
        ChromaPlain(buf, size, semi, roi, second, l, c);
        var s := RegionSample(roi, if second then V else U, l, c);
        assert InRect(PlaneRect(roi, s.p), s.c, s.r);
      }
    }
    if RegionBytes(buf, size.width, size.height, semi, roi) {
      forall s: Sample | InRect(PlaneRect(roi, s.p), s.c, s.r)
        ensures Holds(buf, size, semi, s, Expected(roi, s))
      {
        RegionOf(roi, s);
        var l, c := s.r - PlaneRect(roi, s.p).y, s.c - PlaneRect(roi, s.p).x;
        if s.p == Y {
          LumaPlain(buf, size, semi, roi, l, c);
        } else {
          ChromaPlain(buf, size, semi, roi, s.p == V, l, c);
        }
      }
    }
  }

  /** TRUE exactly when every sample of the region, in all three planes, has its expected value; bytes of
      no such sample are irrelevant. */
  method CheckPicture(size: Size, roi: Rect, semi: bool, buf: seq<byte>) returns (ok: bool)
    requires Even(size) && Inside(roi, size) && |buf| == BufferLength(size)
    ensures ok <==> Accepts(buf, size, semi, roi)
    ensures ok <==> RegionBytes(buf, size.width, size.height, semi, roi)
  {
    AcceptsPlain(buf, size, semi, roi);
    var half, halfRoi := Half(size), HalfRect(roi);
    HalfArea(size);
    RowsOkIff(buf, size, semi, roi, Y);
    RowsOkIff(buf, size, semi, roi, U);
    RowsOkIff(buf, size, semi, roi, V);
    AcceptsIff(buf, size, semi, roi);
    var off := 0;
    ok := CheckPlane(PixTypeY, size, roi, buf, off);
    if !ok {
      return;
    }
    off := off + size.width * size.height;
    if !semi {
      ok := CheckPlane(PixTypeU, half, halfRoi, buf, off);
      if !ok {
        return;
      }
      off := off + size.width * size.height / 4;
      ok := CheckPlane(PixTypeV, half, halfRoi, buf, off);
    } else {
      ok := CheckInterleavePlane(PixTypeU, PixTypeV, half, halfRoi, buf, off);
    }
  }

  lemma AcceptsIff(buf: seq<byte>, size: Size, semi: bool, roi: Rect)
    ensures Accepts(buf, size, semi, roi) <==>
            && PlaneAccepts(buf, size, semi, roi, Y)
            && PlaneAccepts(buf, size, semi, roi, U)
            && PlaneAccepts(buf, size, semi, roi, V)
  {
  }

  lemma RegionInPicture(size: Size, roi: Rect, s: Sample)
    requires Even(size) && Inside(roi, size) && InRect(PlaneRect(roi, s.p), s.c, s.r)
    ensures InPicture(size, s)
  {
  }

  /** Every generated picture is accepted at its own region, in both layouts. */
  lemma GeneratedAccepted(buf: seq<byte>, size: Size, semi: bool, roi: Rect)
    requires Even(size) && Inside(roi, size) && Generated(buf, size, semi, roi)
    ensures Accepts(buf, size, semi, roi)
  {
    forall s: Sample | InRect(PlaneRect(roi, s.p), s.c, s.r)
      ensures Holds(buf, size, semi, s, Expected(roi, s))
    {
      RegionInPicture(size, roi, s);
    }
  }

  /** Every byte that belongs to no sample of the region stays zero. */
  lemma GeneratedZeroOutside(buf: seq<byte>, size: Size, semi: bool, roi: Rect, k: nat)
    requires Even(size) && Generated(buf, size, semi, roi) && k < |buf|
    ensures size.width >= 2
    ensures var s := Locate(size, semi, k);
            buf[k] == 0 <==> !InRect(PlaneRect(roi, s.p), s.c, s.r)
  {
    AddrLocate(size, semi, k);
    var s := Locate(size, semi, k);
    assert Holds(buf, size, semi, s, Expected(roi, s));
  }

  predicate IsLuma(k: nat, W: nat, roi: Rect, l: nat, c: nat)
  {
    k == LumaAt(W, roi.x + c, roi.y + l)
  }

  predicate IsChroma(k: nat, W: nat, H: nat, semi: bool, second: bool, roi: Rect, l: nat, c: nat)
  {
    k == ChromaAt(W, H, semi, second, roi.x / 2 + c, roi.y / 2 + l)
  }

  /** Byte `k` holds no value of the region. */
  ghost predicate NoRegionByte(W: nat, H: nat, semi: bool, roi: Rect, k: nat)
  {
    && (forall l, c :: 0 <= l < roi.h && 0 <= c < roi.w ==> !IsLuma(k, W, roi, l, c))
    && (forall second, l, c :: 0 <= l < roi.h / 2 && 0 <= c < roi.w / 2 ==> !IsChroma(k, W, H, semi, second, roi, l, c))
  }

  function LumaAt(W: nat, x: nat, y: nat): nat
  {
    y * W + x
  }

  /** In plain addresses: every other byte of a generated picture is zero. */
  lemma ZeroElsewhere(buf: seq<byte>, size: Size, semi: bool, roi: Rect, k: nat)
    requires Even(size) && Generated(buf, size, semi, roi) && k < |buf|
    requires NoRegionByte(size.width, size.height, semi, roi, k)
    ensures buf[k] == 0
  {
    GeneratedZeroOutside(buf, size, semi, roi, k);
    AddrLocate(size, semi, k);
    var s := Locate(size, semi, k);
    if InRect(PlaneRect(roi, s.p), s.c, s.r) {
      RegionOf(roi, s);
      RegionAddress(size, semi, roi, s);
    }
  }

  lemma RegionAddress(size: Size, semi: bool, roi: Rect, s: Sample)
    requires InRect(PlaneRect(roi, s.p), s.c, s.r)
    ensures !NoRegionByte(size.width, size.height, semi, roi, AddrOf(size, semi, s))
  {
    var l, c := s.r - PlaneRect(roi, s.p).y, s.c - PlaneRect(roi, s.p).x;
    var k := AddrOf(size, semi, s);
    if s.p == Y {
      assert IsLuma(k, size.width, roi, l, c);
    } else {
      assert IsChroma(k, size.width, size.height, semi, s.p == V, roi, l, c);
    }
  }
}
