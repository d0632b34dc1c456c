/**
 RTP payload packing of H.264 NAL units: the NAL unit header codec, the STAP-A
 aggregator, the FU-A splitter and the packing loop.

 Bytes are bit vectors here: the NAL unit headers are made of masks and shifts.
 */
module NalPacking {
  import opened Arithmetic
  import opened Bytes

  /** A NAL unit has at least its header byte. */
  type Nalu = s: seq<octet> | |s| >= 1 witness [0]

  /** The packer's payload limit: with less than 3 bytes the splitter makes no progress. */
  type Limit = n: nat | n >= 3 witness 3

  const STAP_A: octet := 24
  const FU_A: octet := 28

  /* ---- NAL unit header ---- */

  function NalType(n: seq<octet>): (t: octet)
    requires |n| >= 1
    ensures t < 32
  {
    n[0] & 0x1f
  }

  function Nri(n: seq<octet>): (r: octet)
    requires |n| >= 1
    ensures r < 4
  {
    (n[0] >> 5) & 0x3
  }

  /** The forbidden bit is not carried over: it is always written as zero. */
  function NalHeader(nri: octet, t: octet): (h: octet)
    ensures NalType([h]) == t & 0x1f && Nri([h]) == nri & 0x3 && h < 128
  {
    ((nri & 0x3) << 5) | (t & 0x1f)
  }

  /* ---- what the packer is expected to send, group by group ---- */

  /** A run of NAL units that travels together. */
  datatype Group = Single(nalu: Nalu) | Stap(nalus: seq<Nalu>) | Frag(nalu: Nalu)

  function Items(g: Group): seq<Nalu>
  {
    match g
    case Single(n) => [n]
    case Stap(ns) => ns
    case Frag(n) => [n]
  }

  /** Bytes taken by the size-prefixed entries of a STAP-A payload. */
  function EntriesSize(nalus: seq<Nalu>): nat
  {
    if nalus == [] then 0 else EntriesSize(nalus[..|nalus| - 1]) + 2 + |nalus[|nalus| - 1]|
  }

  function Entries(nalus: seq<Nalu>): (s: seq<octet>)
    ensures |s| == EntriesSize(nalus)
  {
    if nalus == [] then []
    else
      var last := nalus[|nalus| - 1];
      Entries(nalus[..|nalus| - 1]) + SizeField(|last|) + last
  }

  /** A STAP-A payload. When the first NAL unit already carries type 24 the packer takes it for a
      STAP-A under construction and prefixes neither a header nor a size. */
  function StapBytes(nalus: seq<Nalu>): seq<octet>
  {
    if nalus == [] then []
    else if |nalus| == 1 then nalus[0]
    else if NalType(nalus[0]) == STAP_A then nalus[0] + Entries(nalus[1..])
    else [NalHeader(Nri(nalus[0]), STAP_A)] + Entries(nalus)
  }

  /** One FU-A packet. The start fragment drops the original NAL unit header. */
  function FuPacket(indicator: octet, start: bool, end: bool, t: octet, chunk: seq<octet>): seq<octet>
    requires t < 32
    requires start ==> |chunk| >= 1
  {
    [indicator, (if start then 0x80 else 0) | (if end then 0x40 else 0) | t] + (if start then chunk[1..] else chunk)
  }

  /** The FU-A packets for the bytes still to be sent, `chunk` bytes at a time. */
  function FuTail(rest: seq<octet>, indicator: octet, start: bool, t: octet, chunk: nat): seq<seq<octet>>
    requires chunk >= 1 && t < 32
    decreases |rest|
  {
    if |rest| > chunk then
      [FuPacket(indicator, start, false, t, rest[..chunk])]
      + FuTail(rest[chunk..], indicator, false, t, chunk)
    else
      [FuPacket(indicator, false, true, t, rest)]
  }

  function FuPackets(n: Nalu, maxSize: Limit): seq<seq<octet>>
  {
    FuTail(n, NalHeader(Nri(n), FU_A), true, NalType(n), maxSize - 2)
  }

  function Wire(g: Group, maxSize: Limit): seq<seq<octet>>
  {
    match g
    case Single(n) => [n]
    case Stap(ns) => [StapBytes(ns)]
    case Frag(n) => FuPackets(n, maxSize)
  }

  function WireAll(gs: seq<Group>, maxSize: Limit): seq<seq<octet>>
  {
    if gs == [] then [] else Wire(gs[0], maxSize) + WireAll(gs[1..], maxSize)
  }

  lemma {:induction false} WireAllAppend(gs: seq<Group>, hs: seq<Group>, maxSize: Limit)
    ensures WireAll(gs + hs, maxSize) == WireAll(gs, maxSize) + WireAll(hs, maxSize)
  {
    if gs == [] {
      assert gs + hs == hs;
    } else {
      assert (gs + hs)[1..] == gs[1..] + hs;
      WireAllAppend(gs[1..], hs, maxSize);
    }
  }

  function SingleOrFrag(n: Nalu, maxSize: Limit): Group
  {
    if |n| > maxSize then Frag(n) else Single(n)
  }

  function FlushGroups(pending: seq<Nalu>): seq<Group>
  {
    if pending == [] then [] else if |pending| == 1 then [Single(pending[0])] else [Stap(pending)]
  }

  /** The grouping decided by sizes alone: `pending` is the aggregate under construction. */
  function PlanAggregated(nalus: seq<Nalu>, pending: seq<Nalu>, maxSize: Limit): seq<Group>
    decreases |nalus|
  {
    if nalus == [] then FlushGroups(pending)
    else
      var n, rest := nalus[0], nalus[1..];
      if pending != [] && 1 + EntriesSize(pending) + |n| < maxSize - 2 then
        PlanAggregated(rest, pending + [n], maxSize)
      else if |n| < maxSize / 2 then
        FlushGroups(pending) + PlanAggregated(rest, [n], maxSize)
      else
        FlushGroups(pending) + ([SingleOrFrag(n, maxSize)] + PlanAggregated(rest, [], maxSize))
  }

  function PlanOneByOne(nalus: seq<Nalu>, maxSize: Limit): seq<Group>
  {
    if nalus == [] then [] else [SingleOrFrag(nalus[0], maxSize)] + PlanOneByOne(nalus[1..], maxSize)
  }

  function PlanSingles(nalus: seq<Nalu>): seq<Group>
  {
    if nalus == [] then [] else [Single(nalus[0])] + PlanSingles(nalus[1..])
  }

  datatype Mode = SingleNalUnitMode | NonInterleavedMode

  datatype Config = Config(mode: Mode, aggregation: bool, maxSize: Limit)

  function Plan(nalus: seq<Nalu>, c: Config): seq<Group>
  {
    if c.mode.SingleNalUnitMode? then PlanSingles(nalus)
    else if c.aggregation then PlanAggregated(nalus, [], c.maxSize)
    else PlanOneByOne(nalus, c.maxSize)
  }

  function AllItems(gs: seq<Group>): seq<Nalu>
  {
    if gs == [] then [] else Items(gs[0]) + AllItems(gs[1..])
  }

  lemma {:induction false} AllItemsAppend(gs: seq<Group>, hs: seq<Group>)
    ensures AllItems(gs + hs) == AllItems(gs) + AllItems(hs)
  {
    if gs == [] {
      assert gs + hs == hs;
    } else {
      assert (gs + hs)[1..] == gs[1..] + hs;
      AllItemsAppend(gs[1..], hs);
    }
  }

  lemma {:induction false} AggregatedItems(nalus: seq<Nalu>, pending: seq<Nalu>, maxSize: Limit)
    ensures AllItems(PlanAggregated(nalus, pending, maxSize)) == pending + nalus
    decreases |nalus|
  {
    if nalus == [] {
      FlushItems(pending);
      assert pending + [] == pending;
    } else {
      var n, rest := nalus[0], nalus[1..];
      assert nalus == [n] + rest;
      var sent, pending' := TakeTurn(n, pending, maxSize);
      PlanTurn(n, rest, pending, sent, pending', maxSize);
      AggregatedItems(rest, pending', maxSize);
      AllItemsAppend(sent, PlanAggregated(rest, pending', maxSize));
      Assoc(AllItems(sent), pending', rest);
      Assoc(pending, [n], rest);
    }
  }

  /** A turn sends or keeps what it was given, in order. */
  lemma TakeTurn(m: Nalu, pending: seq<Nalu>, maxSize: Limit) returns (sent: seq<Group>, pending': seq<Nalu>)
    ensures Turn(m, pending, sent, pending', maxSize) && AllItems(sent) + pending' == pending + [m]
  {
    FlushItems(pending);
    if pending != [] && 1 + EntriesSize(pending) + |m| < maxSize - 2 {
      sent, pending' := [], pending + [m];
    } else if |m| < maxSize / 2 {
      sent, pending' := FlushGroups(pending), [m];
    } else {
      var g := SingleOrFrag(m, maxSize);
      sent, pending' := FlushGroups(pending) + [g], [];
      AllItemsAppend(FlushGroups(pending), [g]);
      ItemsCons(g, []);
      assert [g] + [] == [g] && pending + [m] + [] == pending + [m];
    }
  }

  lemma ItemsCons(g: Group, gs: seq<Group>)
    ensures AllItems([g] + gs) == Items(g) + AllItems(gs)
  {
    assert ([g] + gs)[1..] == gs;
  }

  lemma FlushItems(pending: seq<Nalu>)
    ensures AllItems(FlushGroups(pending)) == pending
  {
    if pending != [] {
      ItemsCons(FlushGroups(pending)[0], []);
    }
  }

  /** Grouping neither drops, duplicates nor reorders a NAL unit. */
  lemma PlanConserves(nalus: seq<Nalu>, c: Config)
    ensures AllItems(Plan(nalus, c)) == nalus
  {
    if c.mode.SingleNalUnitMode? {
      SinglesItems(nalus);
    } else if c.aggregation {
      AggregatedItems(nalus, [], c.maxSize);
    } else {
      OneByOneItems(nalus, c.maxSize);
    }
  }

  lemma SinglesItems(nalus: seq<Nalu>)
    ensures AllItems(PlanSingles(nalus)) == nalus
  {
    if nalus != [] {
      SinglesItems(nalus[1..]);
      assert PlanSingles(nalus)[1..] == PlanSingles(nalus[1..]);
    }
  }

  lemma OneByOneItems(nalus: seq<Nalu>, maxSize: Limit)
    ensures AllItems(PlanOneByOne(nalus, maxSize)) == nalus
  {
    if nalus != [] {
      OneByOneItems(nalus[1..], maxSize);
      assert PlanOneByOne(nalus, maxSize)[1..] == PlanOneByOne(nalus[1..], maxSize);
    }
  }

  /* ---- the payload size limit ---- */

  predicate AllFit(payloads: seq<seq<octet>>, maxSize: Limit)
  {
    forall p :: p in payloads ==> |p| <= maxSize
  }

  lemma {:induction false} FuTailFits(rest: seq<octet>, indicator: octet, start: bool, t: octet, chunk: nat)
    requires chunk >= 1 && t < 32
    ensures AllFit(FuTail(rest, indicator, start, t, chunk), chunk + 2)
    decreases |rest|
  {
    if |rest| > chunk {
      FuTailFits(rest[chunk..], indicator, false, t, chunk);
    }
  }

  ghost predicate GroupFits(g: Group, maxSize: Limit)
  {
    AllFit(Wire(g, maxSize), maxSize)
  }

  lemma FlushFits(pending: seq<Nalu>, maxSize: Limit)
    requires |pending| == 1 ==> |pending[0]| <= maxSize
    requires |pending| > 1 ==> 1 + EntriesSize(pending) < maxSize
    ensures forall g :: g in FlushGroups(pending) ==> GroupFits(g, maxSize)
  {
    if |pending| > 1 {
      StapBytesSize(pending);
    }
  }

  lemma StapBytesSize(nalus: seq<Nalu>)
    requires |nalus| >= 2
    ensures |StapBytes(nalus)| == 1 + EntriesSize(nalus) - (if NalType(nalus[0]) == STAP_A then 3 else 0)
  {
    EntriesSizeSplit(nalus[..1], nalus[1..]);
    assert nalus == nalus[..1] + nalus[1..];
    assert nalus[..1][..0] == [];
  }

  lemma {:induction false} EntriesSizeSplit(a: seq<Nalu>, b: seq<Nalu>)
    ensures EntriesSize(a + b) == EntriesSize(a) + EntriesSize(b)
  {
    if b == [] {
      assert a + b == a;
    } else {
      assert (a + b)[..|a + b| - 1] == a + b[..|b| - 1];
      EntriesSizeSplit(a, b[..|b| - 1]);
    }
  }

  lemma {:induction false} AggregatedFits(nalus: seq<Nalu>, pending: seq<Nalu>, maxSize: Limit)
    requires |pending| == 1 ==> |pending[0]| <= maxSize
    requires |pending| > 1 ==> 1 + EntriesSize(pending) < maxSize
    ensures forall g :: g in PlanAggregated(nalus, pending, maxSize) ==> GroupFits(g, maxSize)
    decreases |nalus|
  {
    FlushFits(pending, maxSize);
    if nalus != [] {
      var n, rest := nalus[0], nalus[1..];
      if pending != [] && 1 + EntriesSize(pending) + |n| < maxSize - 2 {
        assert (pending + [n])[..|pending|] == pending;
        AggregatedFits(rest, pending + [n], maxSize);
      } else if |n| < maxSize / 2 {
        AggregatedFits(rest, [n], maxSize);
      } else {
        FuTailFits(n, NalHeader(Nri(n), FU_A), true, NalType(n), maxSize - 2);
        assert GroupFits(SingleOrFrag(n, maxSize), maxSize);
        AggregatedFits(rest, [], maxSize);
      }
    }
  }

  lemma {:induction false} OneByOneFits(nalus: seq<Nalu>, maxSize: Limit)
    ensures forall g :: g in PlanOneByOne(nalus, maxSize) ==> GroupFits(g, maxSize)
  {
    if nalus != [] {
      var n := nalus[0];
      FuTailFits(n, NalHeader(Nri(n), FU_A), true, NalType(n), maxSize - 2);
      assert GroupFits(SingleOrFrag(n, maxSize), maxSize);
      OneByOneFits(nalus[1..], maxSize);
    }
  }

  lemma {:induction false} WireAllFits(gs: seq<Group>, maxSize: Limit)
    requires forall g :: g in gs ==> GroupFits(g, maxSize)
    ensures AllFit(WireAll(gs, maxSize), maxSize)
  {
    if gs != [] {
      assert gs[0] in gs;
      WireAllFits(gs[1..], maxSize);
    }
  }

  /** In non-interleaved mode no payload exceeds the configured maximum, whatever the NAL unit sizes. */
  lemma PayloadsFit(nalus: seq<Nalu>, c: Config)
    requires c.mode.NonInterleavedMode?
    ensures AllFit(WireAll(Plan(nalus, c), c.maxSize), c.maxSize)
  {
    if c.aggregation {
      AggregatedFits(nalus, [], c.maxSize);
    } else {
      OneByOneFits(nalus, c.maxSize);
    }
    WireAllFits(Plan(nalus, c), c.maxSize);
  }

  /** Single NAL unit mode only warns about an oversized NAL unit: the limit holds exactly when every
      NAL unit fits. */
  lemma SingleModeFits(nalus: seq<Nalu>, maxSize: Limit)
    ensures AllFit(WireAll(PlanSingles(nalus), maxSize), maxSize) <==> AllFit(nalus, maxSize)
  {
    SinglesWire(nalus, maxSize);
  }

  lemma {:induction false} SinglesWire(nalus: seq<Nalu>, maxSize: Limit)
    ensures WireAll(PlanSingles(nalus), maxSize) == nalus
  {
    if nalus != [] {
      SinglesWire(nalus[1..], maxSize);
      assert PlanSingles(nalus)[1..] == PlanSingles(nalus[1..]);
    }
  }

  /* ---- how many packets, and what is in a fragment ---- */

  lemma {:induction false} FuTailCount(rest: seq<octet>, indicator: octet, start: bool, t: octet, chunk: nat)
    requires chunk >= 1 && t < 32
    ensures |FuTail(rest, indicator, start, t, chunk)| == Pieces(|rest|, chunk)
    decreases |rest|
  {
    if |rest| > chunk {
      FuTailCount(rest[chunk..], indicator, false, t, chunk);
    }
  }

  /** A NAL unit is cut into as few fragments as the payload limit allows. */
  lemma FragmentCount(n: Nalu, maxSize: Limit)
    ensures |FuPackets(n, maxSize)| == (|n| + maxSize - 3) / (maxSize - 2)
  {
    FuTailCount(n, NalHeader(Nri(n), FU_A), true, NalType(n), maxSize - 2);
    PiecesIs(|n|, maxSize - 2);
  }

  lemma {:induction false} FuTailAt(rest: seq<octet>, indicator: octet, start: bool, t: octet, chunk: nat, k: nat)
    requires chunk >= 1 && t < 32 && k < |FuTail(rest, indicator, start, t, chunk)|
    ensures var ps := FuTail(rest, indicator, start, t, chunk);
            if k == |ps| - 1 then
              k * chunk <= |rest| && ps[k] == FuPacket(indicator, false, true, t, rest[k * chunk..])
            else
              && k * chunk + chunk <= |rest|
              && ps[k] == FuPacket(indicator, start && k == 0, false, t, rest[k * chunk..k * chunk + chunk])
    decreases |rest|
  {
    if |rest| > chunk {
      var tail := FuTail(rest[chunk..], indicator, false, t, chunk);
      if k == 0 {
        FuTailCount(rest[chunk..], indicator, false, t, chunk);
        assert 0 * chunk == 0 && rest[0..chunk] == rest[..chunk];
      } else {
        FuTailAt(rest[chunk..], indicator, false, t, chunk, k - 1);
        assert (k - 1) * chunk + chunk == k * chunk;
        if k - 1 == |tail| - 1 {
          assert rest[chunk..][(k - 1) * chunk..] == rest[k * chunk..];
        } else {
          assert rest[chunk..][(k - 1) * chunk..k * chunk] == rest[k * chunk..k * chunk + chunk];
        }
      }
    } else {
      assert 0 * chunk == 0 && rest[0..] == rest;
    }
  }

  lemma IndicatorBits(n: Nalu)
    ensures NalHeader(Nri(n), FU_A) == (n[0] & 0x60) | 0x1c && NalHeader(Nri(n), STAP_A) == (n[0] & 0x60) | 0x18
  {
  }

  /** Every fragment byte by byte: the indicator keeps the two nri bits, the second byte carries the flags and
      the type, and every fragment but the last is full; the first one lacks the original header. */
  lemma FragmentAt(n: Nalu, maxSize: Limit, ps: seq<seq<octet>>, k: nat, c: nat, i: nat)
    requires |n| > maxSize && ps == FuPackets(n, maxSize) && k < |ps| && c == maxSize - 2 && i == k * c
    ensures |ps| >= 2 && i < |n|
    ensures k == 0 ==> ps[k] == [(n[0] & 0x60) | 0x1c, 0x80 | (n[0] & 0x1f)] + n[1..c]
    ensures 0 < k < |ps| - 1 ==> i + c <= |n| && ps[k] == [(n[0] & 0x60) | 0x1c, n[0] & 0x1f] + n[i..i + c]
    ensures k == |ps| - 1 ==> ps[k] == [(n[0] & 0x60) | 0x1c, 0x40 | (n[0] & 0x1f)] + n[i..]
    ensures k < |ps| - 1 ==> |ps[k]| == if k == 0 then maxSize - 1 else maxSize
  {
    var ind, typ := NalHeader(Nri(n), FU_A), NalType(n);
    FuTailAt(n, ind, true, typ, c, k);
    FuTailCount(n, ind, true, typ, c);
    PiecesReach(|n|, c, k);
    IndicatorBits(n);
    if k == 0 {
      FirstFragment(ind, typ, n, c, i, ps[k]);
    } else if k == |ps| - 1 {
      FuBytes(ind, false, true, typ, n[i..]);
    } else {
      FuBytes(ind, false, false, typ, n[i..i + c]);
    }
  }

  lemma FirstFragment(ind: octet, t: octet, n: Nalu, c: nat, i: nat, p: seq<octet>)
    requires t < 32 && i == 0 && 1 <= c <= |n| && p == FuPacket(ind, true, false, t, n[i..i + c])
    ensures p == [ind, 0x80 | t] + n[1..c]
  {
    FuBytes(ind, true, false, t, n[..c]);
    assert n[0..c] == n[..c] && n[..c][1..] == n[1..c];
  }

  lemma FuBytes(ind: octet, start: bool, end: bool, t: octet, chunk: seq<octet>)
    requires t < 32 && !(start && end) && (start ==> |chunk| >= 1)
    ensures FuPacket(ind, start, end, t, chunk)
         == [ind, if start then 0x80 | t else if end then 0x40 | t else t] + if start then chunk[1..] else chunk
  {
    var b: octet := (if start then 0x80 else 0) | (if end then 0x40 else 0) | t;
    assert b == if start then 0x80 | t else if end then 0x40 | t else t;
  }

  lemma {:induction false} PiecesReach(len: nat, chunk: nat, k: nat)
    requires chunk >= 1 && len >= 1 && k < Pieces(len, chunk)
    ensures k * chunk < len
    decreases len
  {
    if k > 0 {
      PiecesReach(len - chunk, chunk, k - 1);
      assert (k - 1) * chunk + chunk == k * chunk;
    }
  }

  /** Packets of a group: one, or as many as a fragmented NAL unit needs. */
  function GroupCount(g: Group, maxSize: Limit): nat
  {
    if g.Frag? then (|g.nalu| + maxSize - 3) / (maxSize - 2) else 1
  }

  function PacketCount(gs: seq<Group>, maxSize: Limit): nat
  {
    if gs == [] then 0 else GroupCount(gs[0], maxSize) + PacketCount(gs[1..], maxSize)
  }

  lemma {:induction false} WireCount(gs: seq<Group>, maxSize: Limit)
    ensures |WireAll(gs, maxSize)| == PacketCount(gs, maxSize)
  {
    if gs != [] {
      if gs[0].Frag? {
        FragmentCount(gs[0].nalu, maxSize);
      }
      WireCount(gs[1..], maxSize);
    }
  }

  /** The header of an aggregate keeps the nri bits of its first NAL unit and has type 24. */
  lemma StapHeader(ns: seq<Nalu>)
    requires |ns| >= 2 && NalType(ns[0]) != STAP_A
    ensures StapBytes(ns)[0] == (ns[0][0] & 0x60) | 0x18
  {
    IndicatorBits(ns[0]);
  }

  /* ---- the grouping is greedy ---- */

  /** Small enough to open an aggregate. */
  predicate Opens(n: Nalu, maxSize: Limit)
  {
    2 * |n| + 2 <= maxSize
  }

  /** What each kind of group is made of. */
  predicate Sound(g: Group, maxSize: Limit)
  {
    match g
    case Single(n) => |n| <= maxSize
    case Stap(ns) => |ns| >= 2 && Opens(ns[0], maxSize) && 1 + EntriesSize(ns) < maxSize
    case Frag(n) => |n| > maxSize
  }

  /** A group that was an aggregate under construction could not take the NAL unit `m` that follows it. */
  predicate Full(g: Group, m: Nalu, maxSize: Limit)
  {
    g.Stap? || (g.Single? && Opens(g.nalu, maxSize)) ==> 1 + EntriesSize(Items(g)) + |m| >= maxSize - 2
  }

  predicate StartsWith(gs: seq<Group>, n: Nalu)
  {
    gs != [] && Items(gs[0]) != [] && Items(gs[0])[0] == n
  }

  /** All groups are sound, and each is full with respect to the first NAL unit of the next. */
  predicate Greedy(gs: seq<Group>, maxSize: Limit)
    decreases |gs|
  {
    gs == [] || (
      && Sound(gs[0], maxSize) && Greedy(gs[1..], maxSize)
      && (|gs| >= 2 ==> Items(gs[1]) != [] && Full(gs[0], Items(gs[1])[0], maxSize)))
  }

  lemma GreedyCons(g: Group, gs: seq<Group>, n: Nalu, maxSize: Limit)
    requires Sound(g, maxSize) && Greedy(gs, maxSize) && (gs != [] ==> StartsWith(gs, n) && Full(g, n, maxSize))
    ensures Greedy([g] + gs, maxSize)
  {
    assert ([g] + gs)[1..] == gs;
  }

  /** An aggregate under construction, as the loop keeps it. */
  predicate Opened(pending: seq<Nalu>, maxSize: Limit)
  {
    pending != [] && Opens(pending[0], maxSize) && (|pending| >= 2 ==> 1 + EntriesSize(pending) < maxSize)
  }

  lemma FlushGreedy(pending: seq<Nalu>, gs: seq<Group>, n: Nalu, maxSize: Limit)
    requires Opened(pending, maxSize) && Greedy(gs, maxSize)
    requires gs != [] ==> StartsWith(gs, n) && 1 + EntriesSize(pending) + |n| >= maxSize - 2
    ensures Greedy(FlushGroups(pending) + gs, maxSize) && StartsWith(FlushGroups(pending) + gs, pending[0])
  {
    var g := FlushGroups(pending)[0];
    assert FlushGroups(pending) == [g] && Items(g) == pending;
    GreedyCons(g, gs, n, maxSize);
  }

  lemma {:induction false} AggregatedGreedy(nalus: seq<Nalu>, pending: seq<Nalu>, maxSize: Limit)
    requires pending == [] || Opened(pending, maxSize)
    ensures var gs := PlanAggregated(nalus, pending, maxSize);
            && Greedy(gs, maxSize) && (pending == [] && nalus == [] ==> gs == [])
            && (pending != [] ==> StartsWith(gs, pending[0]))
            && (pending == [] && nalus != [] ==> StartsWith(gs, nalus[0]))
    decreases |nalus|
  {
    if nalus == [] {
      if pending != [] {
        FlushGreedy(pending, [], pending[0], maxSize);
        assert FlushGroups(pending) + [] == FlushGroups(pending);
      }
    } else {
      var n, rest := nalus[0], nalus[1..];
      if pending != [] && 1 + EntriesSize(pending) + |n| < maxSize - 2 {
        EntriesSnoc(pending, n);
        AggregatedGreedy(rest, pending + [n], maxSize);
      } else if |n| < maxSize / 2 {
        AggregatedGreedy(rest, [n], maxSize);
        if pending != [] {
          FlushGreedy(pending, PlanAggregated(rest, [n], maxSize), n, maxSize);
        } else {
          assert [] + PlanAggregated(rest, [n], maxSize) == PlanAggregated(rest, [n], maxSize);
        }
      } else {
        AggregatedGreedy(rest, [], maxSize);
        AloneGreedy(n, rest, pending, PlanAggregated(rest, [], maxSize), maxSize);
      }
    }
  }

  lemma AloneGreedy(n: Nalu, rest: seq<Nalu>, pending: seq<Nalu>, tail: seq<Group>, maxSize: Limit)
    requires pending == [] || (Opened(pending, maxSize) && 1 + EntriesSize(pending) + |n| >= maxSize - 2)
    requires !Opens(n, maxSize) && Greedy(tail, maxSize) && (rest == [] ==> tail == [])
    requires rest != [] ==> StartsWith(tail, rest[0])
    ensures var gs := FlushGroups(pending) + ([SingleOrFrag(n, maxSize)] + tail);
            Greedy(gs, maxSize) && StartsWith(gs, if pending == [] then n else pending[0])
  {
    var g := SingleOrFrag(n, maxSize);
    GreedyCons(g, tail, if rest == [] then n else rest[0], maxSize);
    if pending != [] {
      FlushGreedy(pending, [g] + tail, n, maxSize);
    } else {
      assert [] + ([g] + tail) == [g] + tail;
    }
  }

  /** With aggregation, for every sequence: a NAL unit below half the maximum opens an aggregate, every
      aggregate stays below the maximum, and none could have taken the NAL unit that follows it. */
  lemma PlanIsGreedy(nalus: seq<Nalu>, c: Config)
    requires c.mode.NonInterleavedMode? && c.aggregation
    ensures Greedy(Plan(nalus, c), c.maxSize)
  {
    AggregatedGreedy(nalus, [], c.maxSize);
  }

  /* ---- RTP envelopes ---- */

  datatype Packet = Packet(payload: seq<octet>, timestamp: nat, marker: bool, cseq: nat)

  /** Payloads stamped in order with consecutive 16-bit sequence numbers; the last one gets `marker`. */
  function Stamped(payloads: seq<seq<octet>>, ts: nat, cseq: nat, marker: bool): (ps: seq<Packet>)
    ensures |ps| == |payloads|
  {
    if payloads == [] then []
    else
      [Packet(payloads[0], ts, marker && |payloads| == 1, cseq % 65536)]
      + Stamped(payloads[1..], ts, cseq + 1, marker)
  }

  lemma {:induction false} StampedAppend(a: seq<seq<octet>>, b: seq<seq<octet>>, ts: nat, cseq: nat, marker: bool)
    requires b == [] ==> !marker
    ensures Stamped(a + b, ts, cseq, marker)
         == Stamped(a, ts, cseq, false) + Stamped(b, ts, cseq + |a|, marker)
  {
    if a == [] {
      assert a + b == b;
    } else {
      assert (a + b)[1..] == a[1..] + b;
      StampedAppend(a[1..], b, ts, cseq + 1, marker);
    }
  }

  lemma StampedOne(m: seq<octet>, ts: nat, cseq: nat, marker: bool)
    ensures Stamped([m], ts, cseq, marker) == [Packet(m, ts, marker, cseq % 65536)]
  {
    assert [m][1..] == [];
  }

  /** What one call of the packer puts on the RTP queue. */
  function Packed(nalus: seq<Nalu>, c: Config, ts: nat, cseq: nat): seq<Packet>
  {
    Stamped(WireAll(Plan(nalus, c), c.maxSize), ts, cseq, true)
  }

  lemma WireNonEmpty(g: Group, maxSize: Limit)
    ensures Wire(g, maxSize) != []
    ensures WireAll([g], maxSize) == Wire(g, maxSize)
  {
    assert [g][1..] == [];
  }

  lemma EntriesSnoc(nalus: seq<Nalu>, n: Nalu)
    ensures Entries(nalus + [n]) == Entries(nalus) + SizeField(|n|) + n
    ensures EntriesSize(nalus + [n]) == EntriesSize(nalus) + 2 + |n|
  {
    assert (nalus + [n])[..|nalus|] == nalus;
  }

  /** A finished aggregate extended by one more NAL unit, as the aggregator extends it. */
  function ConcatNalus(m1: Nalu, m2: Nalu): seq<octet>
  {
    (if NalType(m1) == STAP_A then m1 else [NalHeader(Nri(m1), STAP_A)] + SizeField(|m1|) + m1)
    + SizeField(|m2|) + m2
  }

  lemma StapPair(a: Nalu, n: Nalu)
    ensures StapBytes([a, n]) == ConcatNalus(a, n)
  {
    OneEntry(n);
    assert [a, n][1..] == [n];
    if NalType(a) == STAP_A {
      assert a + (SizeField(|n|) + n) == a + SizeField(|n|) + n;
    } else {
      OneEntry(a);
      EntriesSnoc([a], n);
      assert [a] + [n] == [a, n];
      var h := [NalHeader(Nri(a), STAP_A)];
      assert h + (SizeField(|a|) + a + SizeField(|n|) + n) == h + SizeField(|a|) + a + SizeField(|n|) + n;
    }
  }

  lemma OneEntry(n: Nalu)
    ensures Entries([n]) == SizeField(|n|) + n
  {
    assert [n][..0] == [];
  }

  lemma StapGrows(pending: seq<Nalu>, n: Nalu)
    requires pending != []
    ensures |StapBytes(pending)| >= 1
    ensures StapBytes(pending + [n]) == ConcatNalus(StapBytes(pending), n)
  {
    if |pending| == 1 {
      assert pending + [n] == [pending[0], n];
      StapPair(pending[0], n);
    } else {
      StapIsStap(pending);
      StapTail(pending, n);
    }
  }

  lemma StapIsStap(nalus: seq<Nalu>)
    requires |nalus| >= 2
    ensures |StapBytes(nalus)| >= 1 && NalType(StapBytes(nalus)) == STAP_A
  {
  }

  lemma StapTail(pending: seq<Nalu>, n: Nalu)
    requires |pending| >= 2
    ensures StapBytes(pending + [n]) == StapBytes(pending) + SizeField(|n|) + n
  {
    if NalType(pending[0]) == STAP_A {
      EntriesSnoc(pending[1..], n);
      assert (pending + [n])[1..] == pending[1..] + [n];
      Assoc4(pending[0], Entries(pending[1..]), SizeField(|n|), n);
    } else {
      EntriesSnoc(pending, n);
      Assoc4([NalHeader(Nri(pending[0]), STAP_A)], Entries(pending), SizeField(|n|), n);
    }
  }

  /** The queue grew by exactly the payloads `w`, stamped from `c0` on. */
  ghost predicate SentBytes(q0: seq<Packet>, q1: seq<Packet>, w: seq<seq<octet>>, ts: nat, marker: bool,
                            c0: nat, c1: nat)
  {
    && q1 == q0 + Stamped(w, ts, c0, marker)
    && c1 == c0 + |w|
  }

  /** The queue grew by exactly the packets of `gs`, stamped from `c0` on. */
  ghost predicate Sent(q0: seq<Packet>, q1: seq<Packet>, gs: seq<Group>, maxSize: Limit, ts: nat, marker: bool,
                       c0: nat, c1: nat)
  {
    SentBytes(q0, q1, WireAll(gs, maxSize), ts, marker, c0, c1)
  }

  /** Sending `a` and then `b` is sending them together: the envelopes line up. */
  lemma SentBytesMore(q0: seq<Packet>, q1: seq<Packet>, q2: seq<Packet>, a: seq<seq<octet>>, b: seq<seq<octet>>,
                      ts: nat, marker: bool, c0: nat, c1: nat, c2: nat)
    requires SentBytes(q0, q1, a, ts, false, c0, c1)
    requires SentBytes(q1, q2, b, ts, marker, c1, c2)
    requires b == [] ==> !marker
    ensures SentBytes(q0, q2, a + b, ts, marker, c0, c2)
  {
    StampedAppend(a, b, ts, c0, marker);
    Assoc(q0, Stamped(a, ts, c0, false), Stamped(b, ts, c1, marker));
  }

  lemma SentOne(q0: seq<Packet>, q1: seq<Packet>, m: seq<octet>, ts: nat, marker: bool, c0: nat)
    requires q1 == q0 + [Packet(m, ts, marker, c0 % 65536)]
    ensures SentBytes(q0, q1, [m], ts, marker, c0, c0 + 1)
  {
    StampedOne(m, ts, c0, marker);
  }

  lemma OneMoreSent(q0: seq<Packet>, q1: seq<Packet>, q2: seq<Packet>, a: seq<seq<octet>>, m: seq<octet>,
                    ts: nat, marker: bool, c0: nat, c1: nat)
    requires SentBytes(q0, q1, a, ts, false, c0, c1) && q2 == q1 + [Packet(m, ts, marker, c1 % 65536)]
    ensures SentBytes(q0, q2, a + [m], ts, marker, c0, c1 + 1)
  {
    SentOne(q1, q2, m, ts, marker, c1);
    SentBytesMore(q0, q1, q2, a, [m], ts, marker, c0, c1, c1 + 1);
  }

  lemma WireAllNonEmpty(gs: seq<Group>, maxSize: Limit)
    ensures WireAll(gs, maxSize) == [] ==> gs == []
  {
    if gs != [] {
      WireNonEmpty(gs[0], maxSize);
    }
  }

  lemma SentMore(q0: seq<Packet>, q1: seq<Packet>, q2: seq<Packet>, gs: seq<Group>, hs: seq<Group>,
                 maxSize: Limit, ts: nat, marker: bool, c0: nat, c1: nat, c2: nat)
    requires Sent(q0, q1, gs, maxSize, ts, false, c0, c1)
    requires Sent(q1, q2, hs, maxSize, ts, marker, c1, c2)
    requires hs == [] ==> !marker
    ensures Sent(q0, q2, gs + hs, maxSize, ts, marker, c0, c2)
  {
    WireAllNonEmpty(hs, maxSize);
    WireAllAppend(gs, hs, maxSize);
    SentBytesMore(q0, q1, q2, WireAll(gs, maxSize), WireAll(hs, maxSize), ts, marker, c0, c1, c2);
  }

  /** What one turn of the aggregating loop does with `m`: the groups sent and the new aggregate. */
  ghost predicate Turn(m: Nalu, pending: seq<Nalu>, sent: seq<Group>, pending': seq<Nalu>, maxSize: Limit)
  {
    if pending != [] && 1 + EntriesSize(pending) + |m| < maxSize - 2 then
      sent == [] && pending' == pending + [m]
    else if |m| < maxSize / 2 then
      sent == FlushGroups(pending) && pending' == [m]
    else
      sent == FlushGroups(pending) + [SingleOrFrag(m, maxSize)] && pending' == []
  }

  lemma PlanTurn(m: Nalu, rest: seq<Nalu>, pending: seq<Nalu>, sent: seq<Group>, pending': seq<Nalu>, maxSize: Limit)
    requires Turn(m, pending, sent, pending', maxSize)
    ensures PlanAggregated([m] + rest, pending, maxSize) == sent + PlanAggregated(rest, pending', maxSize)
  {
    assert ([m] + rest)[1..] == rest;
    Assoc(FlushGroups(pending), [SingleOrFrag(m, maxSize)], PlanAggregated(rest, [], maxSize));
  }

  function PlanFrom(q: seq<Nalu>, pending: seq<Nalu>, c: Config): seq<Group>
  {
    if c.aggregation then PlanAggregated(q, pending, c.maxSize) else PlanOneByOne(q, c.maxSize)
  }

  /** The groups `done` are sent and the rest of `plan` follows from `q` and the aggregate. */
  ghost predicate OnPlan(plan: seq<Group>, done: seq<Group>, q: seq<Nalu>, pending: seq<Nalu>, c: Config)
  {
    plan == done + PlanFrom(q, pending, c)
  }

  lemma OnPlanTurn(plan: seq<Group>, done: seq<Group>, m: Nalu, rest: seq<Nalu>, pending: seq<Nalu>, sent: seq<Group>,
                   pending': seq<Nalu>, c: Config)
    requires c.aggregation && OnPlan(plan, done, [m] + rest, pending, c)
    requires Turn(m, pending, sent, pending', c.maxSize)
    ensures OnPlan(plan, done + sent, rest, pending', c)
  {
    PlanTurn(m, rest, pending, sent, pending', c.maxSize);
    Assoc(done, sent, PlanAggregated(rest, pending', c.maxSize));
  }

  lemma OnPlanAlone(plan: seq<Group>, done: seq<Group>, m: Nalu, rest: seq<Nalu>, pending: seq<Nalu>, c: Config)
    requires !c.aggregation && OnPlan(plan, done, [m] + rest, pending, c)
    ensures OnPlan(plan, done + [SingleOrFrag(m, c.maxSize)], rest, pending, c)
  {
    assert ([m] + rest)[1..] == rest;
    Assoc(done, [SingleOrFrag(m, c.maxSize)], PlanOneByOne(rest, c.maxSize));
  }

  lemma OnPlanEnd(plan: seq<Group>, done: seq<Group>, pending: seq<Nalu>, c: Config)
    requires OnPlan(plan, done, [], pending, c)
    requires !c.aggregation ==> pending == []
    ensures plan == done + FlushGroups(pending)
  {
  }

  /**
   The H.264 packer with its aggregator (`stap`, `size`) and splitter (`fuQueue`) folded in.
   The ghost fields name the NAL units inside the aggregate under construction and count the packets
   sent, of which the 16-bit `refCSeq` is the low part.
   */
  class H264NalPacker {
    const config: Config
    var stap: Option<seq<octet>>
    var size: nat
    var fuQueue: seq<seq<octet>>
    var refCSeq: nat
    ghost var pending: seq<Nalu>
    ghost var count: nat

    ghost predicate Valid()
      reads this
    {
      && refCSeq == count % 65536
      && stap == (if pending == [] then None else Some(StapBytes(pending)))
      && (pending != [] ==> size == 1 + EntriesSize(pending))
    }

    constructor (config: Config)
      ensures Valid() && this.config == config && stap == None && fuQueue == [] && refCSeq == 0 && count == 0
    {
      this.config := config;
      stap, size, fuQueue, refCSeq, pending, count := None, 0, [], 0, [], 0;
    }

    method SendPacket(rtpq: seq<Packet>, ts: nat, m: seq<octet>, marker: bool) returns (rtpq': seq<Packet>)
      requires Valid()
      modifies this`refCSeq, this`count
      ensures Valid()
      ensures rtpq' == rtpq + [Packet(m, ts, marker, old(refCSeq))]
      ensures count == old(count) + 1
    {
      rtpq' := rtpq + [Packet(m, ts, marker, refCSeq)];
      refCSeq := (refCSeq + 1) % 65536;
      count := count + 1;
    }

    method CompleteAggregation() returns (res: Option<seq<octet>>)
      requires Valid()
      modifies this`stap, this`size, this`pending
      ensures Valid() && stap == None && pending == []
      ensures res == old(stap)
    {
      res := stap;
      stap := None;
      size := 0;
      pending := [];
    }

    /** Returns the finished aggregate, without taking `nalu` in, when `nalu` does not fit in it. */
    method AggregatorFeed(nalu: Nalu) returns (res: Option<seq<octet>>)
      requires Valid()
      modifies this`stap, this`size, this`pending
      ensures Valid()
      ensures var fits := old(pending) == [] || 1 + EntriesSize(old(pending)) + |nalu| < config.maxSize - 2;
              && pending == (if fits then old(pending) + [nalu] else [])
              && res == (if fits then None else old(stap))
    {
      res := None;
      if stap == None {
        stap := Some(nalu);
        size := |nalu| + 3;
        pending := [nalu];
        assert pending[..0] == [];
      } else if size + |nalu| < config.maxSize - 2 {
        StapGrows(pending, nalu);
        EntriesSnoc(pending, nalu);
        var m1 := stap.value;
        if NalType(m1) != STAP_A {
          m1 := [NalHeader(Nri(m1), STAP_A)] + SizeField(|m1|) + m1;
        }
        stap := Some(m1 + SizeField(|nalu|) + nalu);
        size := size + |nalu| + 2;
        pending := pending + [nalu];
      } else {
        res := CompleteAggregation();
      }
    }

    method SplitterFeed(nalu: Nalu)
      requires Valid()
      modifies this`fuQueue
      ensures fuQueue == old(fuQueue) + FuPackets(nalu, config.maxSize)
    {
      var payloadMaxSize := config.maxSize - 2;
      var t := NalType(nalu);
      var fuIndicator := NalHeader(Nri(nalu), FU_A);
      var start := true;
      var rest := nalu;
      while |rest| > payloadMaxSize
        invariant Valid()
        invariant fuQueue + FuTail(rest, fuIndicator, start, t, payloadMaxSize)
               == old(fuQueue) + FuPackets(nalu, config.maxSize)
        decreases |rest|
      {
        fuQueue := fuQueue + [FuPacket(fuIndicator, start, false, t, rest[..payloadMaxSize])];
        rest := rest[payloadMaxSize..];
        start := false;
      }
      fuQueue := fuQueue + [FuPacket(fuIndicator, false, true, t, rest)];
    }

    method FragNaluAndSend(rtpq: seq<Packet>, ts: nat, nalu: Nalu, marker: bool) returns (rtpq': seq<Packet>)
      requires Valid() && fuQueue == []
      modifies this`fuQueue, this`refCSeq, this`count
      ensures Valid() && fuQueue == []
      ensures SentBytes(rtpq, rtpq', FuPackets(nalu, config.maxSize), ts, marker, old(count), count)
    {
      SplitterFeed(nalu);
      ghost var all := FuPackets(nalu, config.maxSize);
      rtpq' := SendFragments(rtpq, ts, marker, all);
    }

    method SendFragments(rtpq: seq<Packet>, ts: nat, marker: bool, ghost all: seq<seq<octet>>)
      returns (rtpq': seq<Packet>)
      requires Valid() && fuQueue == all != []
      modifies this`fuQueue, this`refCSeq, this`count
      ensures Valid() && fuQueue == []
      ensures SentBytes(rtpq, rtpq', all, ts, marker, old(count), count)
    {
      ghost var sent := [];
      rtpq' := rtpq;
      while fuQueue != []
        invariant Valid()
        invariant all == sent + fuQueue
        invariant SentBytes(rtpq, rtpq', sent, ts, marker && fuQueue == [], old(count), count)
        decreases |fuQueue|
      {
        var m := fuQueue[0];
        fuQueue := fuQueue[1..];
        ghost var q1, c1 := rtpq', count;
        rtpq' := SendPacket(rtpq', ts, m, if fuQueue == [] then marker else false);
        OneMoreSent(rtpq, q1, rtpq', sent, m, ts, marker && fuQueue == [], old(count), c1);
        Assoc(sent, [m], fuQueue);
        sent := sent + [m];
      }
      assert sent == all;
    }

    /** A NAL unit sent on its own, fragmented when it exceeds the maximum. */
    method SendAlone(rtpq: seq<Packet>, ts: nat, m: Nalu, end: bool) returns (rtpq': seq<Packet>)
      requires Valid() && fuQueue == []
      modifies this`fuQueue, this`refCSeq, this`count
      ensures Valid() && fuQueue == []
      ensures Sent(rtpq, rtpq', [SingleOrFrag(m, config.maxSize)], config.maxSize, ts, end, old(count), count)
    {
      WireNonEmpty(SingleOrFrag(m, config.maxSize), config.maxSize);
      if |m| > config.maxSize {
        rtpq' := FragNaluAndSend(rtpq, ts, m, end);
      } else {
        rtpq' := SendPacket(rtpq, ts, m, end);
        SentOne(rtpq, rtpq', m, ts, end, old(count));
      }
    }

    method PackInSingleNalUnitMode(naluq: seq<Nalu>, rtpq: seq<Packet>, ts: nat) returns (rtpq': seq<Packet>)
      requires Valid()
      modifies this`refCSeq, this`count
      ensures Valid()
      ensures SentBytes(rtpq, rtpq', naluq, ts, true, old(count), count)
    {
      rtpq' := rtpq;
      var q := naluq;
      ghost var sent := [];
      while q != []
        invariant Valid()
        invariant naluq == sent + q
        invariant SentBytes(rtpq, rtpq', sent, ts, q == [], old(count), count)
        decreases |q|
      {
        var m := q[0];
        q := q[1..];
        ghost var q1, c1 := rtpq', count;
        rtpq' := SendPacket(rtpq', ts, m, q == []);
        SentOne(q1, rtpq', m, ts, q == [], c1);
        SentBytesMore(rtpq, q1, rtpq', sent, [m], ts, q == [], old(count), c1, count);
        sent := sent + [m];
      }
      assert sent == naluq;
    }

    method SendAggregate(rtpq: seq<Packet>, ts: nat, m: seq<octet>, marker: bool, ghost was: seq<Nalu>)
      returns (rtpq': seq<Packet>)
      requires Valid() && was != [] && m == StapBytes(was)
      modifies this`refCSeq, this`count
      ensures Valid()
      ensures Sent(rtpq, rtpq', FlushGroups(was), config.maxSize, ts, marker, old(count), count)
    {
      rtpq' := SendPacket(rtpq, ts, m, marker);
      WireNonEmpty(FlushGroups(was)[0], config.maxSize);
      assert Wire(FlushGroups(was)[0], config.maxSize) == [m];
      SentOne(rtpq, rtpq', m, ts, marker, old(count));
    }

    /** Offers `m` to the aggregate under construction; when `m` does not fit, the aggregate is sent. */
    method OfferToAggregate(rtpq: seq<Packet>, ts: nat, m: Nalu)
      returns (rtpq': seq<Packet>, taken: bool, ghost sent: seq<Group>)
      requires Valid()
      modifies this`stap, this`size, this`pending, this`refCSeq, this`count
      ensures Valid()
      ensures taken <==> old(pending) != [] && 1 + EntriesSize(old(pending)) + |m| < config.maxSize - 2
      ensures pending == if taken then old(pending) + [m] else []
      ensures sent == if taken then [] else FlushGroups(old(pending))
      ensures Sent(rtpq, rtpq', sent, config.maxSize, ts, false, old(count), count)
    {
      rtpq', taken, sent := rtpq, false, [];
      if stap != None {
        ghost var was := pending;
        var stapPacket := AggregatorFeed(m);
        if stapPacket == None {
          taken := true;
        } else {
          rtpq' := SendAggregate(rtpq, ts, stapPacket.value, false, was);
          sent := FlushGroups(was);
        }
      }
    }

    /** One turn of the packing loop with aggregation enabled; `sent` names the groups it emitted. */
    method AggregateOrSend(rtpq: seq<Packet>, ts: nat, m: Nalu, end: bool)
      returns (rtpq': seq<Packet>, ghost sent: seq<Group>)
      requires Valid() && fuQueue == []
      modifies this
      ensures Valid() && fuQueue == []
      ensures Turn(m, old(pending), sent, pending, config.maxSize)
      ensures Sent(rtpq, rtpq', sent, config.maxSize, ts, end && pending == [], old(count), count)
    {
      var taken: bool;
      rtpq', taken, sent := OfferToAggregate(rtpq, ts, m);
      if taken {
        return;
      }
      if |m| < config.maxSize / 2 {
        var _ := AggregatorFeed(m);
        assert pending == [m];
      } else {
        ghost var g, q1, c1 := SingleOrFrag(m, config.maxSize), rtpq', count;
        rtpq' := SendAlone(rtpq', ts, m, end);
        SentMore(rtpq, q1, rtpq', sent, [g], config.maxSize, ts, end, old(count), c1, count);
        sent := sent + [g];
      }
    }

    /** One turn of the packing loop, when `done` of the groups in `plan` went out since `q0`. */
    method PackOne(rtpq: seq<Packet>, ts: nat, m: Nalu, end: bool, ghost rest: seq<Nalu>, ghost plan: seq<Group>,
                   ghost done: seq<Group>, ghost q0: seq<Packet>, ghost c0: nat)
      returns (rtpq': seq<Packet>, ghost done': seq<Group>)
      requires Valid() && fuQueue == []
      requires !config.aggregation ==> pending == []
      requires OnPlan(plan, done, [m] + rest, pending, config)
      requires Sent(q0, rtpq, done, config.maxSize, ts, false, c0, count)
      modifies this
      ensures Valid() && fuQueue == []
      ensures !config.aggregation ==> pending == []
      ensures OnPlan(plan, done', rest, pending, config)
      ensures Sent(q0, rtpq', done', config.maxSize, ts, end && pending == [], c0, count)
    {
      ghost var sent := [SingleOrFrag(m, config.maxSize)];
      if config.aggregation {
        rtpq', sent := AggregateOrSend(rtpq, ts, m, end);
        OnPlanTurn(plan, done, m, rest, old(pending), sent, pending, config);
      } else {
        rtpq' := SendAlone(rtpq, ts, m, end);
        OnPlanAlone(plan, done, m, rest, pending, config);
      }
      SentMore(q0, rtpq, rtpq', done, sent, config.maxSize, ts, end && pending == [], c0, old(count), count);
      done' := done + sent;
    }

    /** Sends what is left in the aggregator at the end of the queue. */
    method FlushLast(rtpq: seq<Packet>, ts: nat, ghost done: seq<Group>, ghost q0: seq<Packet>, ghost c0: nat)
      returns (rtpq': seq<Packet>)
      requires Valid()
      requires Sent(q0, rtpq, done, config.maxSize, ts, pending == [], c0, count)
      modifies this`stap, this`size, this`pending, this`refCSeq, this`count
      ensures Valid() && pending == []
      ensures Sent(q0, rtpq', done + FlushGroups(old(pending)), config.maxSize, ts, true, c0, count)
    {
      rtpq' := rtpq;
      if stap != None {
        ghost var was, c1 := pending, count;
        var last := CompleteAggregation();
        rtpq' := SendAggregate(rtpq, ts, last.value, true, was);
        SentMore(q0, rtpq, rtpq', done, FlushGroups(was), config.maxSize, ts, true, c0, c1, count);
      } else {
        assert done + [] == done;
      }
    }

    method PackInNonInterleavedMode(naluq: seq<Nalu>, rtpq: seq<Packet>, ts: nat) returns (rtpq': seq<Packet>)
      requires Valid() && config.mode.NonInterleavedMode? && pending == [] && fuQueue == []
      modifies this
      ensures Valid() && pending == [] && fuQueue == []
      ensures Sent(rtpq, rtpq', Plan(naluq, config), config.maxSize, ts, true, old(count), count)
    {
      rtpq' := rtpq;
      var q := naluq;
      ghost var done: seq<Group> := [];
      ghost var plan := Plan(naluq, config);
      while q != []
        invariant Valid() && fuQueue == []
        invariant !config.aggregation ==> pending == []
        invariant OnPlan(plan, done, q, pending, config)
        invariant Sent(rtpq, rtpq', done, config.maxSize, ts, q == [] && pending == [], old(count), count)
        decreases |q|
      {
        var m := q[0];
        assert q == [m] + q[1..];
        q := q[1..];
        rtpq', done := PackOne(rtpq', ts, m, q == [], q, plan, done, rtpq, old(count));
      }
      OnPlanEnd(plan, done, pending, config);
      rtpq' := FlushLast(rtpq', ts, done, rtpq, old(count));
    }

    /** Everything one call emits, in one statement: the planned groups on the wire, stamped with `ts`
        and with sequence numbers that continue the previous call's, the marker on the last packet. */
    method Pack(naluq: seq<Nalu>, rtpq: seq<Packet>, ts: nat) returns (rtpq': seq<Packet>)
      requires Valid() && pending == [] && fuQueue == []
      modifies this
      ensures Valid() && pending == [] && fuQueue == []
      ensures rtpq' == rtpq + Packed(naluq, config, ts, old(count))
      ensures count == old(count) + |Packed(naluq, config, ts, old(count))|
      ensures count == old(count) + PacketCount(Plan(naluq, config), config.maxSize)
    {
      WireCount(Plan(naluq, config), config.maxSize);
      match config.mode
      case SingleNalUnitMode =>
        SinglesWire(naluq, config.maxSize);
        rtpq' := PackInSingleNalUnitMode(naluq, rtpq, ts);
      case NonInterleavedMode => rtpq' := PackInNonInterleavedMode(naluq, rtpq, ts);
    }
  }
}
