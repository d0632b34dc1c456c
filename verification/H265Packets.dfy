/**
 The H.265 payload formats: the two-byte NAL unit header, fragmentation units and aggregation packets, as
 the packer forges them and the unpacker reads them.
 */
module H265Packets {
  import opened Arithmetic
  import opened Bytes
  import opened NalPacking
  import opened NalUnpacking
  import opened NalRoundTrip

  /** A NAL unit with its two-byte header. */
  type Nalu265 = s: seq<octet> | |s| >= 2 witness [0, 0]

  const AP: octet := 48
  const FU: octet := 49

  datatype Header = Header(fBit: bool, typ: octet, layerId: octet, tid: octet)

  predicate ValidHeader(h: Header)
  {
    h.typ < 64 && h.layerId < 64 && h.tid < 8
  }

  /** One forbidden bit, six bits of type, six of layer, three of temporal id. */
  function ParseHeader(s: seq<octet>): (h: Header)
    requires |s| >= 2
    ensures ValidHeader(h)
  {
    var word := ((s[0] as bv16) << 8) | (s[1] as bv16);
    Header(word >> 15 != 0, ((word >> 9) & 0x3f) as octet, ((word >> 3) & 0x3f) as octet, (word & 0x7) as octet)
  }

  function ForgeHeader(h: Header): (s: seq<octet>)
    requires ValidHeader(h)
    ensures |s| == 2
  {
    var word: bv16 := (if h.fBit then 0x8000 else 0) | ((h.typ as bv16) << 9)
                      | ((h.layerId as bv16) << 3) | (h.tid as bv16);
    [(word >> 8) as octet, (word & 0xff) as octet]
  }

  /** Parsing and forging lose no bit of the header. */
  lemma HeaderRoundTrip(s: seq<octet>)
    requires |s| == 2
    ensures ForgeHeader(ParseHeader(s)) == s
  {
  }

  lemma ForgeParse(h: Header)
    requires ValidHeader(h)
    ensures ParseHeader(ForgeHeader(h)) == h
  {
  }

  /** Where the fields are, byte by byte: forbidden bit and type in the first byte, the layer across both, the
      temporal id at the end of the second. */
  lemma HeaderBits(s: seq<octet>)
    requires |s| >= 2
    ensures var h := ParseHeader(s);
            && (h.fBit <==> s[0] & 0x80 != 0) && h.typ == (s[0] >> 1) & 0x3f
            && h.layerId == ((s[0] & 0x1) << 5) | (s[1] >> 3) && h.tid == s[1] & 0x7
  {
  }

  /* ---- fragmentation ---- */

  datatype Position = Start | Middle | End

  function FuHeader(pos: Position, typ: octet): octet
    requires typ < 64
  {
    (match pos case Start => 0x80 case Middle => 0 case End => 0x40) | typ
  }

  function MakeFu(h: Header, pos: Position, chunk: seq<octet>): seq<octet>
    requires ValidHeader(h)
  {
    ForgeHeader(h.(typ := FU)) + [FuHeader(pos, h.typ)] + chunk
  }

  function FuRest(h: Header, pos: Position, rest: seq<octet>, size: nat): seq<seq<octet>>
    requires ValidHeader(h) && size >= 1
    decreases |rest|
  {
    if |rest| > size then [MakeFu(h, pos, rest[..size])] + FuRest(h, Middle, rest[size..], size)
    else [MakeFu(h, End, rest)]
  }

  /** What the splitter queues: nothing for a NAL unit that fits. */
  function Fragments(n: Nalu265, maxSize: nat): seq<seq<octet>>
    requires maxSize >= 4
  {
    if |n| <= maxSize then [] else FuRest(ParseHeader(n), Start, n[2..], maxSize - 3)
  }

  method SplitterFeed(n: Nalu265, maxSize: nat) returns (q: seq<seq<octet>>)
    requires maxSize >= 4
    ensures q == Fragments(n, maxSize)
  {
    q := [];
    if |n| <= maxSize {
      return;
    }
    var h := ParseHeader(n);
    var rest, pos := n[2..], Start;
    var size := maxSize - 3;
    while |rest| > size
      invariant q + FuRest(h, pos, rest, size) == Fragments(n, maxSize)
      decreases |rest|
    {
      Assoc(q, [MakeFu(h, pos, rest[..size])], FuRest(h, Middle, rest[size..], size));
      q := q + [MakeFu(h, pos, rest[..size])];
      pos := Middle;
      rest := rest[size..];
    }
    q := q + [MakeFu(h, End, rest)];
  }

  lemma {:induction false} FuRestCount(h: Header, pos: Position, rest: seq<octet>, size: nat)
    requires ValidHeader(h) && size >= 1
    ensures |FuRest(h, pos, rest, size)| == Pieces(|rest|, size)
    decreases |rest|
  {
    if |rest| > size {
      FuRestCount(h, Middle, rest[size..], size);
    }
  }

  lemma {:induction false} FuRestAt(h: Header, pos: Position, rest: seq<octet>, size: nat, k: nat)
    requires ValidHeader(h) && size >= 1 && k < |FuRest(h, pos, rest, size)|
    ensures var ps := FuRest(h, pos, rest, size);
            if k == |ps| - 1 then k * size <= |rest| && ps[k] == MakeFu(h, End, rest[k * size..])
            else
              && k * size + size <= |rest|
              && ps[k] == MakeFu(h, if k == 0 then pos else Middle, rest[k * size..k * size + size])
    decreases |rest|
  {
    if |rest| > size {
      var tail := FuRest(h, Middle, rest[size..], size);
      if k == 0 {
        FuRestCount(h, Middle, rest[size..], size);
        assert 0 * size == 0 && rest[0..size] == rest[..size];
      } else {
        FuRestAt(h, Middle, rest[size..], size, k - 1);
        assert (k - 1) * size + size == k * size;
        if k - 1 == |tail| - 1 {
          assert rest[size..][(k - 1) * size..] == rest[k * size..];
        } else {
          assert rest[size..][(k - 1) * size..k * size] == rest[k * size..k * size + size];
        }
      }
    } else {
      assert 0 * size == 0 && rest[0..] == rest;
    }
  }

  /** A fragment byte by byte: the header with type 49, flags and type, and a piece of the NAL unit. */
  function FuBytes265(n: Nalu265, flags: octet, chunk: seq<octet>): seq<octet>
  {
    [(n[0] & 0x81) | 0x62, n[1], ((n[0] >> 1) & 0x3f) | flags] + chunk
  }

  lemma FuFront(n: Nalu265, pos: Position, chunk: seq<octet>)
    ensures MakeFu(ParseHeader(n), pos, chunk)
         == FuBytes265(n, match pos case Start => 0x80 case Middle => 0 case End => 0x40, chunk)
  {
  }

  /** A NAL unit is cut into as few fragments as the maximum size allows. */
  lemma FragmentCount265(n: Nalu265, maxSize: nat)
    requires maxSize >= 4 && |n| > maxSize
    ensures |Fragments(n, maxSize)| == (|n| + maxSize - 6) / (maxSize - 3) && |Fragments(n, maxSize)| >= 2
  {
    FuRestCount(ParseHeader(n), Start, n[2..], maxSize - 3);
    PiecesIs(|n| - 2, maxSize - 3);
  }

  /** The k-th fragment holds the k-th piece of what follows the header; every fragment but the last is full. */
  lemma FragmentAt265(n: Nalu265, maxSize: nat, ps: seq<seq<octet>>, k: nat, size: nat, i: nat)
    requires maxSize >= 4 && |n| > maxSize && ps == Fragments(n, maxSize) && k < |ps|
    requires size == maxSize - 3 && i == k * size
    ensures i <= |n| - 2
    ensures k == |ps| - 1 ==> ps[k] == FuBytes265(n, 0x40, n[2 + i..])
    ensures k < |ps| - 1 ==> 2 + i + size <= |n| && |ps[k]| == maxSize
    ensures k < |ps| - 1 ==> ps[k] == FuBytes265(n, if k == 0 then 0x80 else 0, n[2 + i..2 + i + size])
  {
    var h, rest := ParseHeader(n), n[2..];
    FuRestAt(h, Start, rest, size, k);
    if k == |ps| - 1 {
      FuFront(n, End, rest[i..]);
      assert rest[i..] == n[2 + i..];
    } else {
      FuFront(n, if k == 0 then Start else Middle, rest[i..i + size]);
      assert rest[i..i + size] == n[2 + i..2 + i + size];
    }
  }

  /** The aggregator's NAL unit under construction and what a call returns; Malformed is the exception
      thrown for a fragment marked both first and last. */
  datatype FuResult = FuResult(m: Option<seq<octet>>, out: Option<seq<octet>>) | Malformed

  /** What a fragment with the given rebuilt header, flags and payload does. */
  function FuAct(m: Option<seq<octet>>, header: seq<octet>, start: bool, end: bool, chunk: seq<octet>): FuResult
  {
    if start && end then Malformed
    else if start && m.Some? then FuResult(Some(chunk), None)
    else if !start && m.None? then FuResult(None, None)
    else
      var built := (if start then header else m.value) + chunk;
      if end then FuResult(None, Some(built)) else FuResult(Some(built), None)
  }

  function FuStep(m: Option<seq<octet>>, p: seq<octet>): FuResult
  {
    if |p| < 3 then FuResult(m, None)
    else
      FuAct(m, ForgeHeader(ParseHeader(p).(typ := p[2] & 0x3f)), p[2] >> 7 == 1, (p[2] >> 6) & 0x1 == 1, p[3..])
  }

  class FuAggregator {
    var m: Option<seq<octet>>

    constructor ()
      ensures m == None
    {
      m := None;
    }

    /** None: the fragment header is invalid. Some(None): nothing complete yet. */
    method Feed(p: seq<octet>) returns (out: Option<Option<seq<octet>>>)
      modifies this`m
      ensures var r := FuStep(old(m), p);
              if r.Malformed? then out == None && m == old(m) else out == Some(r.out) && m == r.m
    {
      if |p| < 3 {
        return Some(None);
      }
      var header := ParseHeader(p);
      var start, end := p[2] >> 7 == 1, (p[2] >> 6) & 0x1 == 1;
      if start && end {
        return None;
      }
      header := header.(typ := p[2] & 0x3f);
      if start && m != None {
        m := Some(p[3..]);
        return Some(None);
      }
      if !start && m == None {
        return Some(None);
      }
      if start {
        m := Some(ForgeHeader(header));
      }
      m := Some(m.value + p[3..]);
      if end {
        var res := m;
        m := None;
        return Some(res);
      }
      return Some(None);
    }
  }

  /** Feeding packets one by one; the NAL units returned, in order. */
  function FeedAll(m: Option<seq<octet>>, ps: seq<seq<octet>>): (r: (Option<seq<octet>>, seq<seq<octet>>))
    decreases |ps|
  {
    if ps == [] then (m, [])
    else
      var step := FuStep(m, ps[0]);
      if step.Malformed? then FeedAll(None, ps[1..])
      else
        var rest := FeedAll(step.m, ps[1..]);
        (rest.0, (if step.out.Some? then [step.out.value] else []) + rest.1)
  }

  lemma FuHeaderReads(pos: Position, typ: octet)
    requires typ < 64
    ensures var b := FuHeader(pos, typ);
            b & 0x3f == typ && (b >> 7 == 1 <==> pos == Start) && ((b >> 6) & 0x1 == 1 <==> pos == End)
  {
  }

  lemma FuFed(m: Option<seq<octet>>, h: Header, pos: Position, chunk: seq<octet>)
    requires ValidHeader(h) && (pos == Start || m.Some?)
    ensures FuStep(m, MakeFu(h, pos, chunk))
         == if pos == Start && m.Some? then FuResult(Some(chunk), None)
            else if pos == Start then FuResult(Some(ForgeHeader(h) + chunk), None)
            else if pos == End then FuResult(None, Some(m.value + chunk))
            else FuResult(Some(m.value + chunk), None)
  {
    FuParsed(h, pos, chunk);
  }

  lemma FuParsed(h: Header, pos: Position, chunk: seq<octet>)
    requires ValidHeader(h)
    ensures var p := MakeFu(h, pos, chunk);
            && |p| >= 3 && p[3..] == chunk && ParseHeader(p).(typ := p[2] & 0x3f) == h
            && (p[2] >> 7 == 1 <==> pos == Start) && ((p[2] >> 6) & 0x1 == 1 <==> pos == End)
  {
    var p, front := MakeFu(h, pos, chunk), ForgeHeader(h.(typ := FU));
    FuHeaderReads(pos, h.typ);
    ForgeParse(h.(typ := FU));
    assert p[0] == front[0] && p[1] == front[1] && p[2] == FuHeader(pos, h.typ);
  }

  lemma FeedCons(m: Option<seq<octet>>, p: seq<octet>, ps: seq<seq<octet>>)
    requires FuStep(m, p).FuResult?
    ensures var step := FuStep(m, p); var rest := FeedAll(step.m, ps);
            FeedAll(m, [p] + ps) == (rest.0, (if step.out.Some? then [step.out.value] else []) + rest.1)
  {
    assert ([p] + ps)[1..] == ps;
  }

  lemma {:induction false} FuRestFed(x: seq<octet>, h: Header, rest: seq<octet>, size: nat)
    requires ValidHeader(h) && size >= 1
    ensures FeedAll(Some(x), FuRest(h, Middle, rest, size)) == (None, [x + rest])
    decreases |rest|
  {
    if |rest| > size {
      FuFed(Some(x), h, Middle, rest[..size]);
      FuRestFed(x + rest[..size], h, rest[size..], size);
      FeedCons(Some(x), MakeFu(h, Middle, rest[..size]), FuRest(h, Middle, rest[size..], size));
      assert x + rest[..size] + rest[size..] == x + rest && [] + [x + rest] == [x + rest];
    } else {
      FuFed(Some(x), h, End, rest);
      FeedCons(Some(x), MakeFu(h, End, rest), []);
      assert [MakeFu(h, End, rest)] + [] == [MakeFu(h, End, rest)] && [x + rest] + [] == [x + rest];
    }
  }

  lemma FragmentsFed(m: Option<seq<octet>>, h: Header, rest: seq<octet>, size: nat)
    requires ValidHeader(h) && 1 <= size < |rest|
    ensures FeedAll(m, FuRest(h, Start, rest, size)) == (None, [if m.None? then ForgeHeader(h) + rest else rest])
  {
    var a, b := rest[..size], rest[size..];
    var head := if m.None? then ForgeHeader(h) else [];
    FuFed(m, h, Start, a);
    assert head + a == if m.None? then ForgeHeader(h) + a else a;
    FuRestFed(head + a, h, b, size);
    FeedCons(m, MakeFu(h, Start, a), FuRest(h, Middle, b, size));
    assert head + a + b == head + rest && [] + [head + rest] == [head + rest];
    assert m.Some? ==> head + rest == rest;
  }

  /** Every oversized NAL unit, whatever its type, comes back exactly if and only if the aggregator was
      idle. If the end of an earlier NAL unit was lost, the next one comes back without its header. */
  lemma FragmentsRoundTrip(m: Option<seq<octet>>, n: Nalu265, maxSize: nat)
    requires maxSize >= 4 && |n| > maxSize
    ensures FeedAll(m, Fragments(n, maxSize)) == (None, [if m.None? then n else n[2..]])
  {
    FragmentsFed(m, ParseHeader(n), n[2..], maxSize - 3);
    HeaderRoundTrip(n[..2]);
    assert ParseHeader(n[..2]) == ParseHeader(n) && n == n[..2] + n[2..];
  }

  /** Continuation fragments without their start are dropped, the last one too. */
  lemma {:induction false} HeadlessDropped265(h: Header, rest: seq<octet>, size: nat)
    requires ValidHeader(h) && size >= 1
    ensures FeedAll(None, FuRest(h, Middle, rest, size)) == (None, [])
    decreases |rest|
  {
    if |rest| > size {
      FuParsed(h, Middle, rest[..size]);
      HeadlessDropped265(h, rest[size..], size);
      FeedCons(None, MakeFu(h, Middle, rest[..size]), FuRest(h, Middle, rest[size..], size));
    } else {
      FuParsed(h, End, rest);
      FeedCons(None, MakeFu(h, End, rest), []);
    }
  }

  /** A NAL unit that lost its first fragment leaves no byte behind. */
  lemma StartLost265(n: Nalu265, maxSize: nat)
    requires maxSize >= 4 && |n| > maxSize
    ensures |Fragments(n, maxSize)| >= 2 && FeedAll(None, Fragments(n, maxSize)[1..]) == (None, [])
  {
    var h, rest, size := ParseHeader(n), n[2..], maxSize - 3;
    HeadlessDropped265(h, rest[size..], size);
    assert Fragments(n, maxSize)[1..] == FuRest(h, Middle, rest[size..], size);
    FragmentCount265(n, maxSize);
  }

  /** A packet too short for its headers changes nothing; contradictory flags are refused. */
  lemma OddFragments(m: Option<seq<octet>>, p: seq<octet>)
    ensures |p| < 3 ==> FuStep(m, p) == FuResult(m, None)
    ensures |p| >= 3 ==> (FuStep(m, p) == Malformed <==> p[2] & 0xc0 == 0xc0)
  {
    if |p| >= 3 {
      BothFlags(p[2]);
    }
  }

  lemma BothFlags(b: octet)
    ensures b >> 7 == 1 && (b >> 6) & 0x1 == 1 <==> b & 0xc0 == 0xc0
  {
  }

  /* ---- aggregation ---- */

  /** Entries behind the first NAL unit: size fields precede all of them but the first. */
  function Tail(ns: seq<seq<octet>>): seq<octet>
  {
    if ns == [] then [] else SizeField(|ns[0]|) + ns[0] + Tail(ns[1..])
  }

  /** What follows the header of an aggregation packet: the first NAL unit has no size field. */
  function Body(ns: seq<Nalu265>): seq<octet>
    requires ns != []
  {
    ns[0] + Tail(ns[1..])
  }

  function Least(a: octet, b: octet): octet
  {
    if b < a then b else a
  }

  /** The header of a packet that takes in one more NAL unit. */
  function Combine(h: Header, g: Header): Header
  {
    Header(h.fBit || g.fBit, AP, Least(h.layerId, g.layerId), Least(h.tid, g.tid))
  }

  function ApHeader(ns: seq<Nalu265>): (h: Header)
    requires ns != []
    ensures ValidHeader(h) && (|ns| >= 2 ==> h.typ == AP)
  {
    var k := |ns| - 1;
    if k == 0 then ParseHeader(ns[0]) else Combine(ApHeader(ns[..k]), ParseHeader(ns[k]))
  }

  function HeadersOf(ns: seq<Nalu265>): seq<Header>
  {
    seq(|ns|, i requires 0 <= i < |ns| => ParseHeader(ns[i]))
  }

  function Merged(hs: seq<Header>): Header
    requires hs != []
  {
    var k := |hs| - 1;
    if k == 0 then hs[0] else Combine(Merged(hs[..k]), hs[k])
  }

  lemma {:induction false} ApHeaderMerged(ns: seq<Nalu265>)
    requires ns != []
    ensures ApHeader(ns) == Merged(HeadersOf(ns))
  {
    var k := |ns| - 1;
    if k > 0 {
      ApHeaderMerged(ns[..k]);
      assert HeadersOf(ns)[..k] == HeadersOf(ns[..k]);
    }
  }

  ghost predicate SomeForbidden(hs: seq<Header>)
  {
    exists i :: 0 <= i < |hs| && hs[i].fBit
  }

  lemma LeastIs(a: octet, b: octet)
    ensures Least(a, b) <= a && Least(a, b) <= b && (Least(a, b) == a || Least(a, b) == b)
  {
  }

  function Smallest(xs: seq<octet>): octet
    requires xs != []
  {
    var k := |xs| - 1;
    if k == 0 then xs[0] else Least(Smallest(xs[..k]), xs[k])
  }

  ghost predicate NoneBelow(xs: seq<octet>, v: octet)
  {
    forall i :: 0 <= i < |xs| ==> v <= xs[i]
  }

  ghost predicate IsSmallest(xs: seq<octet>, v: octet, t: nat)
  {
    NoneBelow(xs, v) && t < |xs| && xs[t] == v
  }

  lemma AtMost(a: octet, b: octet, c: octet)
    requires a <= b && b <= c
    ensures a <= c
  {
  }

  lemma LowerBound(xs: seq<octet>, v: octet, w: octet)
    requires NoneBelow(xs, v) && w <= v
    ensures NoneBelow(xs, w)
  {
    forall i | 0 <= i < |xs| ensures w <= xs[i] { AtMost(w, v, xs[i]); }
  }

  lemma OneMore(xs: seq<octet>, x: octet, w: octet)
    requires NoneBelow(xs, w) && w <= x
    ensures NoneBelow(xs + [x], w)
  {
    var ys := xs + [x];
    forall i | 0 <= i < |ys|
      ensures w <= ys[i]
    {
      if i < |xs| {
        assert ys[i] == xs[i];
      } else {
        assert ys[i] == x;
      }
    }
  }

  lemma Pick(xs: seq<octet>, x: octet, v: octet, t: nat) returns (u: nat)
    requires t < |xs| && xs[t] == v
    ensures u < |xs| + 1 && (xs + [x])[u] == Least(v, x)
  {
    u := if x < v then |xs| else t;
  }

  lemma SmallestSnoc(xs: seq<octet>, x: octet, v: octet, t: nat) returns (u: nat)
    requires IsSmallest(xs, v, t)
    ensures IsSmallest(xs + [x], Least(v, x), u)
  {
    LeastIs(v, x);
    LowerBound(xs, v, Least(v, x));
    OneMore(xs, x, Least(v, x));
    u := Pick(xs, x, v, t);
  }

  lemma SmallestUnfold(front: seq<octet>, x: octet)
    requires front != []
    ensures Smallest(front + [x]) == Least(Smallest(front), x)
  {
    assert (front + [x])[..|front|] == front;
  }

  lemma {:induction false} SmallestIs(xs: seq<octet>) returns (t: nat)
    requires xs != []
    ensures IsSmallest(xs, Smallest(xs), t)
  {
    var k := |xs| - 1;
    if k == 0 {
      t := 0;
    } else {
      var front, x := xs[..k], xs[k];
      assert xs == front + [x];
      t := SmallestIs(front);
      SmallestUnfold(front, x);
      t := SmallestSnoc(front, x, Smallest(front), t);
    }
  }

  function Tids(hs: seq<Header>): seq<octet>
  {
    seq(|hs|, i requires 0 <= i < |hs| => hs[i].tid)
  }

  function Layers(hs: seq<Header>): seq<octet>
  {
    seq(|hs|, i requires 0 <= i < |hs| => hs[i].layerId)
  }

  lemma {:induction false} MergedSmallest(hs: seq<Header>)
    requires hs != []
    ensures Merged(hs).tid == Smallest(Tids(hs)) && Merged(hs).layerId == Smallest(Layers(hs))
  {
    var k := |hs| - 1;
    if k > 0 {
      MergedSmallest(hs[..k]);
      assert Tids(hs)[..k] == Tids(hs[..k]) && Layers(hs)[..k] == Layers(hs[..k]);
    }
  }

  lemma {:induction false} MergedForbidden(hs: seq<Header>)
    requires hs != []
    ensures Merged(hs).fBit <==> SomeForbidden(hs)
  {
    var k := |hs| - 1;
    if k > 0 {
      MergedForbidden(hs[..k]);
      assert forall i :: 0 <= i < k ==> hs[..k][i] == hs[i];
      assert SomeForbidden(hs) <==> SomeForbidden(hs[..k]) || hs[k].fBit;
    }
  }

  /** The header of an aggregate: the smallest layer and the smallest temporal id among its NAL units, and the
      forbidden bit exactly if one of them has it. */
  lemma ApHeaderLeast(ns: seq<Nalu265>) returns (t: nat, l: nat)
    requires ns != []
    ensures forall i :: 0 <= i < |ns| ==> ApHeader(ns).tid <= ParseHeader(ns[i]).tid
    ensures forall i :: 0 <= i < |ns| ==> ApHeader(ns).layerId <= ParseHeader(ns[i]).layerId
    ensures t < |ns| && ApHeader(ns).tid == ParseHeader(ns[t]).tid
    ensures l < |ns| && ApHeader(ns).layerId == ParseHeader(ns[l]).layerId
    ensures ApHeader(ns).fBit <==> exists i :: 0 <= i < |ns| && ParseHeader(ns[i]).fBit
  {
    var hs := HeadersOf(ns);
    ApHeaderMerged(ns);
    MergedSmallest(hs);
    t := SmallestIs(Tids(hs));
    l := SmallestIs(Layers(hs));
    MergedForbidden(hs);
    assert forall i :: 0 <= i < |ns| ==> Tids(hs)[i] == hs[i].tid && Layers(hs)[i] == hs[i].layerId;
    assert forall i :: 0 <= i < |ns| ==> hs[i] == ParseHeader(ns[i]);
  }

  /** The packet for an aggregate; a lone NAL unit travels as it is, unless its own type is 48. */
  function ApPacket(ns: seq<Nalu265>): seq<octet>
    requires ns != []
  {
    (if ApHeader(ns).typ == AP then ForgeHeader(ApHeader(ns)) else []) + Body(ns)
  }

  /** An aggregate of two NAL units or more carries that header, with type 48. */
  lemma PacketHeader(ns: seq<Nalu265>)
    requires |ns| >= 2
    ensures ParseHeader(ApPacket(ns)) == ApHeader(ns) && ApHeader(ns).typ == 48
  {
    var p, front := ApPacket(ns), ForgeHeader(ApHeader(ns));
    ForgeParse(ApHeader(ns));
    assert p[0] == front[0] && p[1] == front[1];
  }

  lemma {:induction false} TailSnoc(ns: seq<Nalu265>, n: Nalu265)
    ensures Tail(ns + [n]) == Tail(ns) + SizeField(|n|) + n
  {
    if ns == [] {
      assert ns + [n] == [n] && [n][1..] == [];
      assert SizeField(|n|) + n + [] == [] + SizeField(|n|) + n;
    } else {
      assert (ns + [n])[1..] == ns[1..] + [n];
      TailSnoc(ns[1..], n);
      Assoc4(SizeField(|ns[0]|) + ns[0], Tail(ns[1..]), SizeField(|n|), n);
    }
  }

  lemma BodySnoc(ns: seq<Nalu265>, n: Nalu265)
    requires ns != []
    ensures Body(ns + [n]) == Body(ns) + SizeField(|n|) + n
  {
    assert (ns + [n])[1..] == ns[1..] + [n];
    TailSnoc(ns[1..], n);
    Assoc4(ns[0], Tail(ns[1..]), SizeField(|n|), n);
  }

  lemma ApHeaderSnoc(ns: seq<Nalu265>, n: Nalu265)
    requires ns != []
    ensures ApHeader(ns + [n]) == Combine(ApHeader(ns), ParseHeader(n))
  {
    assert (ns + [n])[..|ns|] == ns;
  }

  /** The packer's aggregator. The ghost field names the NAL units taken in so far. */
  class NaluAggregator {
    const maxSize: nat
    var ap: Option<seq<octet>>
    var apHeader: Header
    var size: nat
    ghost var taken: seq<Nalu265>

    ghost predicate Valid()
      reads this
    {
      && ap == (if taken == [] then None else Some(Body(taken)))
      && (taken != [] ==> apHeader == ApHeader(taken) && size == |Body(taken)|)
      && (|taken| >= 2 ==> 2 + size <= maxSize)
    }

    constructor (maxSize: nat)
      ensures Valid() && taken == [] && this.maxSize == maxSize
    {
      this.maxSize := maxSize;
      ap, apHeader, size, taken := None, Header(false, 0, 0, 0), 0, [];
    }

    /** The finished packet; two NAL units or more never exceed the maximum size. */
    method CompleteAggregation() returns (m: Option<seq<octet>>)
      requires Valid()
      modifies this`ap, this`taken
      ensures Valid() && taken == []
      ensures m == if old(taken) == [] then None else Some(ApPacket(old(taken)))
      ensures |old(taken)| >= 2 ==> |m.value| <= maxSize
    {
      if ap == None {
        return None;
      }
      if apHeader.typ != AP {
        m := ap;
        assert [] + ap.value == ap.value;
      } else {
        m := Some(ForgeHeader(apHeader) + ap.value);
      }
      ap := None;
      taken := [];
    }

    method PlaceFirstNalu(nalu: Nalu265)
      modifies this`ap, this`apHeader, this`size, this`taken
      ensures Valid() && taken == [nalu]
    {
      ap, apHeader, size, taken := Some(nalu), ParseHeader(nalu), |nalu|, [nalu];
      assert [nalu][1..] == [] && nalu + [] == nalu;
    }

    method Aggregate(nalu: Nalu265)
      requires Valid() && taken != [] && 2 + size + 2 + |nalu| <= maxSize
      modifies this`ap, this`apHeader, this`size, this`taken
      ensures Valid() && taken == old(taken) + [nalu]
    {
      var header := ParseHeader(nalu);
      apHeader := Header(apHeader.fBit || header.fBit, AP, Least(apHeader.layerId, header.layerId),
                         Least(apHeader.tid, header.tid));
      size := size + 2 + |nalu|;
      BodySnoc(taken, nalu);
      ApHeaderSnoc(taken, nalu);
      ap := Some(ap.value + SizeField(|nalu|) + nalu);
      taken := taken + [nalu];
    }

    /** A NAL unit that does not fit completes the packet and starts the next one. */
    method Feed(nalu: Nalu265) returns (m: Option<seq<octet>>)
      requires Valid()
      modifies this`ap, this`apHeader, this`size, this`taken
      ensures Valid()
      ensures var fits := old(taken) == [] || 2 + |Body(old(taken))| + 2 + |nalu| <= maxSize;
              && taken == (if fits then old(taken) + [nalu] else [nalu])
              && m == (if fits then None else Some(ApPacket(old(taken))))
    {
      m := None;
      if ap == None {
        PlaceFirstNalu(nalu);
      } else if 2 + size + 2 + |nalu| > maxSize {
        m := CompleteAggregation();
        PlaceFirstNalu(nalu);
      } else {
        Aggregate(nalu);
      }
    }
  }

  /** The entries of a packet, or None when the packet is dropped. A last size field with nothing behind
      it stops the scan exactly at the end of the packet, which passes for a complete packet. */
  function ApEntries(s: seq<octet>): Option<seq<seq<octet>>>
    decreases |s|
  {
    if s == [] then Some([])
    else if |s| < 2 then None
    else
      var size := BigEndian(s[0], s[1]);
      if |s| < 2 + size then (if |s| == 2 then Some([]) else None)
      else
        var rest := ApEntries(s[2 + size..]);
        if rest.None? then None else Some([s[2..2 + size]] + rest.value)
  }

  function ApSplit(p: seq<octet>): seq<seq<octet>>
  {
    if |p| < 2 then [] else if ApEntries(p[2..]).Some? then ApEntries(p[2..]).value else []
  }

  /** The entries of `p` from `it` on, behind those already queued. */
  function ApRest(q: seq<seq<octet>>, s: seq<octet>): Option<seq<seq<octet>>>
  {
    if ApEntries(s).None? then None else Some(q + ApEntries(s).value)
  }

  lemma ApCut(s: seq<octet>, size: nat)
    requires |s| >= 2 && size == BigEndian(s[0], s[1]) && |s| < 2 + size
    ensures ApEntries(s) == if |s| == 2 then Some([]) else None
  {
  }

  lemma ApTake(s: seq<octet>, size: nat, entry: seq<octet>, rest: seq<octet>)
    requires |s| >= 2 + size && size == BigEndian(s[0], s[1]) && entry == s[2..2 + size] && rest == s[2 + size..]
    ensures ApEntries(rest).None? ==> ApEntries(s) == None
    ensures ApEntries(rest).Some? ==> ApEntries(s) == Some([entry] + ApEntries(rest).value)
  {
  }

  lemma ApStep(q: seq<seq<octet>>, p: seq<octet>, it: nat, size: nat)
    requires it + 2 <= |p| && size == BigEndian(p[it], p[it + 1])
    ensures it + 2 + size > |p| ==> ApRest(q, p[it..]) == if it + 2 == |p| then Some(q) else None
    ensures it + 2 + size <= |p| ==>
              ApRest(q, p[it..]) == ApRest(q + [p[it + 2..it + 2 + size]], p[it + 2 + size..])
  {
    var s := p[it..];
    if |s| >= 2 + size {
      var rest := p[it + 2 + size..];
      assert s[2..2 + size] == p[it + 2..it + 2 + size] && s[2 + size..] == rest;
      ApTake(s, size, p[it + 2..it + 2 + size], rest);
      if ApEntries(rest).Some? {
        Assoc(q, [p[it + 2..it + 2 + size]], ApEntries(rest).value);
      }
    } else {
      ApCut(s, size);
      assert q + [] == q;
    }
  }

  method ApSpliterFeed(p: seq<octet>) returns (q: seq<seq<octet>>)
    ensures q == ApSplit(p)
  {
    q := [];
    if |p| < 2 {
      return;
    }
    var it := 2;
    ghost var goal := ApRest([], p[2..]);
    assert goal.Some? ==> goal.value == ApEntries(p[2..]).value;
    while it < |p|
      invariant 2 <= it <= |p|
      invariant ApRest(q, p[it..]) == goal
      decreases |p| - it
    {
      if |p| - it < 2 {
        break;
      }
      var naluSize := BigEndian(p[it], p[it + 1]);
      ApStep(q, p, it, naluSize);
      it := it + 2;
      if it + naluSize > |p| {
        q := if it != |p| then [] else q;
        return;
      }
      q := q + [p[it..it + naluSize]];
      it := it + naluSize;
    }
    if it != |p| {
      q := [];
    } else {
      assert p[it..] == [] && q + [] == q;
    }
  }

  /* ---- which packets the splitter accepts ---- */

  ghost predicate AllShort(es: seq<seq<octet>>)
  {
    forall e :: e in es ==> |e| < 65536
  }

  /** Nothing, or a size field that announces bytes and has none behind it. */
  predicate Dangling(d: seq<octet>)
  {
    d == [] || (|d| == 2 && BigEndian(d[0], d[1]) > 0)
  }

  lemma ApCons(e: seq<octet>, rest: seq<octet>)
    requires |e| < 65536
    ensures ApEntries(SizeField(|e|) + e + rest)
         == if ApEntries(rest).None? then None else Some([e] + ApEntries(rest).value)
  {
    var field := SizeField(|e|);
    var s, k := field + e + rest, BigEndian(field[0], field[1]);
    SizeFieldReads(|e|, k);
    Slices(field, e, rest);
    assert s[0] == field[0] && s[1] == field[1];
  }

  lemma {:induction false} ShapeAccepted(es: seq<seq<octet>>, d: seq<octet>)
    requires AllShort(es) && Dangling(d)
    ensures ApEntries(Tail(es) + d) == Some(es)
  {
    if es == [] {
      assert Tail(es) + d == d;
    } else {
      assert es[0] in es && es == [es[0]] + es[1..];
      ShapeAccepted(es[1..], d);
      ApCons(es[0], Tail(es[1..]) + d);
      Assoc(SizeField(|es[0]|) + es[0], Tail(es[1..]), d);
    }
  }

  ghost predicate Shape(s: seq<octet>, es: seq<seq<octet>>, d: seq<octet>)
  {
    Dangling(d) && AllShort(es) && s == Tail(es) + d
  }

  lemma {:induction false} AcceptedShape(s: seq<octet>, es: seq<seq<octet>>) returns (d: seq<octet>)
    requires ApEntries(s) == Some(es)
    ensures Shape(s, es, d)
    decreases |s|
  {
    if s == [] {
      d := [];
    } else {
      var size := BigEndian(s[0], s[1]);
      if |s| < 2 + size {
        d := CutShape(s, es, size);
      } else {
        var e, rest := s[2..2 + size], s[2 + size..];
        ApTake(s, size, e, rest);
        var others := ApEntries(rest).value;
        d := AcceptedShape(rest, others);
        EntryShape(s, size, e, rest, others, d);
      }
    }
  }

  lemma CutShape(s: seq<octet>, es: seq<seq<octet>>, size: nat) returns (d: seq<octet>)
    requires |s| >= 2 && size == BigEndian(s[0], s[1]) && |s| < 2 + size && ApEntries(s) == Some(es)
    ensures Shape(s, es, d)
  {
    ApCut(s, size);
    d := s;
    assert es == [] && Tail(es) + d == d;
  }

  lemma EntryShape(s: seq<octet>, size: nat, e: seq<octet>, rest: seq<octet>, es: seq<seq<octet>>, d: seq<octet>)
    requires 2 + size <= |s| && size == BigEndian(s[0], s[1]) && e == s[2..2 + size] && rest == s[2 + size..]
    requires Shape(rest, es, d)
    ensures Shape(s, [e] + es, d)
  {
    FieldOfSize(s[0], s[1]);
    assert s == SizeField(|e|) + e + rest;
    TailCons(e, es);
    Assoc(SizeField(|e|) + e, Tail(es), d);
    ShortCons(e, es);
  }

  lemma TailCons(e: seq<octet>, es: seq<seq<octet>>)
    ensures Tail([e] + es) == SizeField(|e|) + e + Tail(es)
  {
    assert ([e] + es)[1..] == es;
  }

  lemma ShortCons(e: seq<octet>, es: seq<seq<octet>>)
    requires |e| < 65536 && AllShort(es)
    ensures AllShort([e] + es)
  {
  }

  /** A packet is accepted if and only if it is a sequence of entries that fill it, or such a sequence
      followed by two bytes of a size field without its NAL unit: that truncation goes unnoticed. */
  lemma AcceptedIff(s: seq<octet>)
    ensures ApEntries(s).Some? <==> exists es, d :: AllShort(es) && Dangling(d) && s == Tail(es) + d
  {
    if ApEntries(s).Some? {
      var d := AcceptedShape(s, ApEntries(s).value);
    }
    if es, d :| AllShort(es) && Dangling(d) && s == Tail(es) + d {
      ShapeAccepted(es, d);
    }
  }

  /** One entry and then a size field that announces five bytes which are not there. */
  lemma TruncationUnnoticed()
    ensures ApSplit([96, 1, 0, 1, 7, 0, 5]) == [[7]]
  {
    var p: seq<octet> := [96, 1, 0, 1, 7, 0, 5];
    var e: seq<octet>, d: seq<octet> := [7], [0, 5];
    FieldOfSize(0, 1);
    assert [e][1..] == [] && Tail([]) == [] && SizeField(1) + e + [] == [0, 1, 7];
    ShapeAccepted([e], d);
    assert p[2..] == Tail([e]) + d;
  }

  lemma {:induction false} ApEntriesWeight(s: seq<octet>)
    ensures ApEntries(s).Some? ==> Weight(ApEntries(s).value) <= |s| <= Weight(ApEntries(s).value) + 2
    decreases |s|
  {
    if |s| >= 2 {
      var size := BigEndian(s[0], s[1]);
      if |s| >= 2 + size {
        ApEntriesWeight(s[2 + size..]);
        if ApEntries(s).Some? {
          assert ApEntries(s).value[1..] == ApEntries(s[2 + size..]).value;
        }
      }
    }
  }

  lemma {:induction false} TailWeight(ns: seq<Nalu265>)
    ensures |Tail(ns)| == Weight(ns)
  {
    if ns != [] {
      TailWeight(ns[1..]);
    }
  }

  /** No aggregate of two NAL units or more ever comes back: the two bytes of the missing size field
      tell. */
  lemma AggregatesNeverReturn(ns: seq<Nalu265>)
    requires |ns| >= 2
    ensures ApSplit(ApPacket(ns)) != ns
  {
    var p := ApPacket(ns);
    assert p[2..] == Body(ns);
    ApEntriesWeight(p[2..]);
    TailWeight(ns[1..]);
    assert Weight(ns) == |ns[0]| + 2 + Weight(ns[1..]);
  }
}
