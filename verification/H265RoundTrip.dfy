/**
 What the H.265 unpacker makes of the packer's payloads: for every clean plan, exactly when the NAL units
 come back.
 */
module H265RoundTrip {
  import opened Bytes
  import opened NalUnpacking
  import opened NalRoundTrip
  import opened H265Packets
  import H265Packing

  /* ---- the unpacker ---- */

  /** What one payload does to the stored NAL units and the fragmented one under construction. A fragment with
      contradictory flags resets the aggregator. (A payload without its two header bytes is read past; it is
      mapped to no change only to keep the function total.) */
  function Take(d: Depot, p: seq<octet>): Depot
  {
    if |p| < 2 then d
    else if ParseHeader(p).typ == FU then TakeFragment(d, FuStep(d.fu, p))
    else if ParseHeader(p).typ == AP then Depot(d.q + ApSplit(p), d.fu)
    else Depot(d.q + [p], None)
  }

  function TakeFragment(d: Depot, r: FuResult): Depot
  {
    if r.Malformed? then Depot(d.q, None)
    else Depot(if r.out.Some? then d.q + [r.out.value] else d.q, r.m)
  }

  function TakeAll(d: Depot, ps: seq<seq<octet>>): Depot
    decreases |ps|
  {
    if ps == [] then d else TakeAll(Take(d, ps[0]), ps[1..])
  }

  /** The payload switch of the unpacker; `overread` is true where the source reads a header the payload does
      not have. */
  method StorePayload(a: FuAggregator, q: seq<seq<octet>>, p: seq<octet>) returns (q': seq<seq<octet>>, overread: bool)
    modifies a
    ensures overread <==> |p| < 2
    ensures !overread ==> Depot(q', a.m) == Take(Depot(q, old(a.m)), p)
  {
    q', overread := q, |p| < 2;
    if overread {
      return;
    }
    if ParseHeader(p).typ == FU {
      var o := a.Feed(p);
      if o == None {
        a.m := None;
      } else if o.value != None {
        q' := q + [o.value.value];
      }
    } else if ParseHeader(p).typ == AP {
      var nalus := ApSpliterFeed(p);
      q' := q + nalus;
    } else {
      a.m := None;
      q' := q + [p];
    }
  }

  lemma {:induction false} TakeAppend(d: Depot, a: seq<seq<octet>>, b: seq<seq<octet>>)
    ensures TakeAll(d, a + b) == TakeAll(TakeAll(d, a), b)
    decreases |a|
  {
    if a == [] {
      assert a + b == b;
    } else {
      assert (a + b)[1..] == a[1..] + b;
      TakeAppend(Take(d, a[0]), a[1..], b);
    }
  }

  lemma TakeOne(d: Depot, p: seq<octet>)
    ensures TakeAll(d, [p]) == Take(d, p)
  {
    assert [p][1..] == [];
  }

  /* ---- fragments ---- */

  predicate IsFragment(p: seq<octet>)
  {
    |p| >= 3 && ParseHeader(p).typ == FU
  }

  ghost predicate AllFragments(ps: seq<seq<octet>>)
  {
    forall p :: p in ps ==> IsFragment(p)
  }

  lemma {:induction false} TakeFragments(q: seq<seq<octet>>, m: Option<seq<octet>>, ps: seq<seq<octet>>)
    requires AllFragments(ps)
    ensures var r := FeedAll(m, ps); TakeAll(Depot(q, m), ps) == Depot(q + r.1, r.0)
    decreases |ps|
  {
    if ps == [] {
      assert q + [] == q;
    } else {
      assert ps[0] in ps;
      var d := Take(Depot(q, m), ps[0]);
      TakeFragments(d.q, d.fu, ps[1..]);
      var step := FuStep(m, ps[0]);
      if step.FuResult? && step.out.Some? {
        Assoc(q, [step.out.value], FeedAll(step.m, ps[1..]).1);
      }
    }
  }

  lemma FuIsFragment(h: Header, pos: Position, chunk: seq<octet>)
    requires ValidHeader(h)
    ensures IsFragment(MakeFu(h, pos, chunk))
  {
    var p, front := MakeFu(h, pos, chunk), ForgeHeader(h.(typ := FU));
    ForgeParse(h.(typ := FU));
    assert p[0] == front[0] && p[1] == front[1];
  }

  lemma {:induction false} FuRestFragments(h: Header, pos: Position, rest: seq<octet>, size: nat)
    requires ValidHeader(h) && size >= 1
    ensures AllFragments(FuRest(h, pos, rest, size))
    decreases |rest|
  {
    if |rest| > size {
      FuIsFragment(h, pos, rest[..size]);
      FuRestFragments(h, Middle, rest[size..], size);
    } else {
      FuIsFragment(h, End, rest);
    }
  }

  lemma OversizedTaken(d: Depot, n: Nalu265, maxSize: nat)
    requires maxSize >= 4 && |n| > maxSize
    ensures TakeAll(d, Fragments(n, maxSize)) == Depot(d.q + [if d.fu.None? then n else n[2..]], None)
  {
    FuRestFragments(ParseHeader(n), Start, n[2..], maxSize - 3);
    TakeFragments(d.q, d.fu, Fragments(n, maxSize));
    FragmentsRoundTrip(d.fu, n, maxSize);
  }

  /* ---- which parcels come back ---- */

  predicate Plain(n: Nalu265)
  {
    ParseHeader(n).typ != AP && ParseHeader(n).typ != FU
  }

  /** A NAL unit that is fragmented, or sent whole with a type of its own. */
  predicate Returns(p: H265Packing.Parcel, maxSize: nat)
  {
    match p
    case Alone(n) => |n| > maxSize || Plain(n)
    case Together(ns) => |ns| == 1 && Plain(ns[0])
  }

  ghost predicate AllReturn(ps: seq<H265Packing.Parcel>, maxSize: nat)
  {
    forall p :: p in ps ==> Returns(p, maxSize)
  }

  ghost predicate NoneEmpty(ps: seq<H265Packing.Parcel>)
  {
    forall p: H265Packing.Parcel :: p in ps && p.Together? ==> p.nalus != []
  }

  lemma LonePacket(n: Nalu265)
    ensures ApHeader([n]) == ParseHeader(n) && Body([n]) == n
    ensures ParseHeader(n).typ != AP ==> ApPacket([n]) == n
  {
    assert [n][1..] == [] && n + [] == n && [] + n == n;
  }

  /** From an idle aggregator, a parcel that returns adds its NAL units. */
  lemma ParcelTaken(q: seq<seq<octet>>, p: H265Packing.Parcel, maxSize: nat)
    requires maxSize >= 4 && Returns(p, maxSize)
    ensures TakeAll(Depot(q, None), H265Packing.Payloads(p, maxSize)) == Depot(q + H265Packing.Contents(p), None)
  {
    match p
    case Alone(n) =>
      if |n| > maxSize {
        OversizedTaken(Depot(q, None), n, maxSize);
      } else {
        TakeOne(Depot(q, None), n);
      }
    case Together(ns) =>
      LonePacket(ns[0]);
      assert ns == [ns[0]];
      TakeOne(Depot(q, None), ns[0]);
  }

  /* ---- the others lose bytes ---- */

  lemma FragmentWeight(d: Depot, n: Nalu265)
    requires ParseHeader(n).typ == FU
    ensures DepotWeight(Take(d, n)) < DepotWeight(d) + |n| + 2
  {
    var r := FuStep(d.fu, n);
    if r.FuResult? && r.out.Some? {
      WeightAppend(d.q, [r.out.value]);
      WeightOne(r.out.value);
    }
  }

  lemma PacketWeight(d: Depot, p: seq<octet>)
    requires |p| >= 2 && ParseHeader(p).typ == AP
    ensures DepotWeight(Take(d, p)) <= DepotWeight(d) + |p| - 2
  {
    ApEntriesWeight(p[2..]);
    WeightAppend(d.q, ApSplit(p));
  }

  /** No NAL unit sent whole adds more than its own weight, and one of type 48 or 49 adds less. */
  lemma WholeWeight(d: Depot, n: Nalu265)
    ensures DepotWeight(Take(d, n)) <= DepotWeight(d) + |n| + 2
    ensures !Plain(n) ==> DepotWeight(Take(d, n)) < DepotWeight(d) + |n| + 2
  {
    if ParseHeader(n).typ == FU {
      FragmentWeight(d, n);
    } else if ParseHeader(n).typ == AP {
      PacketWeight(d, n);
    } else {
      WeightAppend(d.q, [n]);
      WeightOne(n);
    }
  }

  lemma OversizedWeight(d: Depot, n: Nalu265, maxSize: nat)
    requires maxSize >= 4 && |n| > maxSize
    ensures DepotWeight(TakeAll(d, Fragments(n, maxSize))) <= DepotWeight(d) + |n| + 2
  {
    OversizedTaken(d, n, maxSize);
    var back := if d.fu.None? then n else n[2..];
    WeightAppend(d.q, [back]);
    WeightOne(back);
  }

  lemma AggregateHeader(ns: seq<Nalu265>)
    requires ns != [] && ApHeader(ns).typ == AP
    ensures ParseHeader(ApPacket(ns)).typ == AP && |ApPacket(ns)| == 2 + |Body(ns)|
  {
    var p, h := ApPacket(ns), ForgeHeader(ApHeader(ns));
    ForgeParse(ApHeader(ns));
    assert p[0] == h[0] && p[1] == h[1];
  }

  lemma BodyWeight(ns: seq<Nalu265>)
    requires ns != []
    ensures |Body(ns)| + 2 == Weight(ns)
  {
    TailWeight(ns[1..]);
  }

  lemma TogetherWeight(d: Depot, ns: seq<Nalu265>)
    requires ns != []
    ensures var w := DepotWeight(Take(d, ApPacket(ns)));
            w <= DepotWeight(d) + Weight(ns) && (|ns| >= 2 || !Plain(ns[0]) ==> w < DepotWeight(d) + Weight(ns))
  {
    if ApHeader(ns).typ == AP {
      AggregateHeader(ns);
      PacketWeight(d, ApPacket(ns));
      BodyWeight(ns);
    } else {
      assert ns == [ns[0]];
      LonePacket(ns[0]);
      WholeWeight(d, ns[0]);
      WeightOne(ns[0]);
    }
  }

  lemma ParcelWeight(d: Depot, p: H265Packing.Parcel, maxSize: nat)
    requires maxSize >= 4 && (p.Together? ==> p.nalus != [])
    ensures var w := DepotWeight(TakeAll(d, H265Packing.Payloads(p, maxSize)));
            var all := DepotWeight(d) + Weight(H265Packing.Contents(p));
            w <= all && (!Returns(p, maxSize) ==> w < all)
  {
    match p
    case Alone(n) =>
      WeightOne(n);
      if |n| > maxSize {
        OversizedWeight(d, n, maxSize);
      } else {
        TakeOne(d, n);
        WholeWeight(d, n);
      }
    case Together(ns) =>
      TakeOne(d, ApPacket(ns));
      TogetherWeight(d, ns);
  }

  /* ---- whole plans ---- */

  lemma PayloadsCons(ps: seq<H265Packing.Parcel>, maxSize: nat)
    requires maxSize >= 4 && ps != []
    ensures H265Packing.AllPayloads(ps, maxSize)
         == H265Packing.Payloads(ps[0], maxSize) + H265Packing.AllPayloads(ps[1..], maxSize)
    ensures H265Packing.Unpacked(ps) == H265Packing.Contents(ps[0]) + H265Packing.Unpacked(ps[1..])
  {
    assert ps == [ps[0]] + ps[1..];
    H265Packing.AllPayloadsAppend([ps[0]], ps[1..], maxSize);
    H265Packing.OneParcel(ps[0], maxSize);
    H265Packing.UnpackedAppend([ps[0]], ps[1..]);
    H265Packing.UnpackedOne(ps[0]);
  }

  lemma {:induction false} AllTaken(q: seq<seq<octet>>, ps: seq<H265Packing.Parcel>, maxSize: nat)
    requires maxSize >= 4 && AllReturn(ps, maxSize)
    ensures TakeAll(Depot(q, None), H265Packing.AllPayloads(ps, maxSize)) == Depot(q + H265Packing.Unpacked(ps), None)
    decreases |ps|
  {
    if ps == [] {
      assert H265Packing.AllPayloads(ps, maxSize) == [] && H265Packing.Unpacked(ps) == [] && q + [] == q;
    } else {
      assert ps[0] in ps;
      var first, rest := H265Packing.Payloads(ps[0], maxSize), H265Packing.AllPayloads(ps[1..], maxSize);
      var q' := q + H265Packing.Contents(ps[0]);
      PayloadsCons(ps, maxSize);
      ParcelTaken(q, ps[0], maxSize);
      TakeAppend(Depot(q, None), first, rest);
      AllTaken(q', ps[1..], maxSize);
      Assoc<seq<octet>>(q, H265Packing.Contents(ps[0]), H265Packing.Unpacked(ps[1..]));
    }
  }

  lemma {:induction false} AllWeight(d: Depot, ps: seq<H265Packing.Parcel>, maxSize: nat)
    requires maxSize >= 4 && NoneEmpty(ps)
    ensures var w := DepotWeight(TakeAll(d, H265Packing.AllPayloads(ps, maxSize)));
            var all := DepotWeight(d) + Weight(H265Packing.Unpacked(ps));
            w <= all && (!AllReturn(ps, maxSize) ==> w < all)
    decreases |ps|
  {
    if ps == [] {
      assert H265Packing.AllPayloads(ps, maxSize) == [] && H265Packing.Unpacked(ps) == [];
    } else {
      assert ps[0] in ps;
      var first, rest := H265Packing.Payloads(ps[0], maxSize), H265Packing.AllPayloads(ps[1..], maxSize);
      PayloadsCons(ps, maxSize);
      ParcelWeight(d, ps[0], maxSize);
      TakeAppend(d, first, rest);
      AllWeight(TakeAll(d, first), ps[1..], maxSize);
      WeightAppend(H265Packing.Contents(ps[0]), H265Packing.Unpacked(ps[1..]));
      assert AllReturn(ps, maxSize) <==> Returns(ps[0], maxSize) && AllReturn(ps[1..], maxSize);
    }
  }

  lemma {:induction false} PlanNoneEmpty(nalus: seq<Nalu265>, pending: seq<Nalu265>, maxSize: nat)
    requires H265Packing.NoneReused(nalus, pending, maxSize)
    ensures NoneEmpty(H265Packing.Plan(nalus, pending, maxSize))
    decreases |nalus|
  {
    if nalus != [] {
      PlanNoneEmpty(nalus[1..], H265Packing.OneTurn(nalus[0], pending, maxSize).pending, maxSize);
    }
  }

  /** For every sequence of NAL units that the packing loop handles without corrupting memory: they come back
      from the unpacker if and only if no two of them were aggregated and none was sent whole with the type of
      a packet (48) or of a fragment (49). */
  lemma RoundTripIff(nalus: seq<Nalu265>, maxSize: nat)
    requires maxSize >= 4 && H265Packing.NoneReused(nalus, [], maxSize)
    ensures var plan := H265Packing.Plan(nalus, [], maxSize);
            TakeAll(Depot([], None), H265Packing.AllPayloads(plan, maxSize)).q == nalus <==> AllReturn(plan, maxSize)
  {
    var plan := H265Packing.Plan(nalus, [], maxSize);
    H265Packing.Kept(nalus, [], maxSize);
    assert [] + nalus == nalus;
    if AllReturn(plan, maxSize) {
      AllTaken([], plan, maxSize);
      assert [] + H265Packing.Unpacked(plan) == H265Packing.Unpacked(plan);
    } else {
      PlanNoneEmpty(nalus, [], maxSize);
      AllWeight(Depot([], None), plan, maxSize);
    }
  }

  /** Two small NAL units that fit one packet never come back. */
  lemma PairLost(a: Nalu265, b: Nalu265, maxSize: nat)
    requires maxSize >= 4 && |a| < maxSize / 2 && 4 + |a| + |b| <= maxSize
    ensures H265Packing.NoneReused([a, b], [], maxSize)
    ensures var plan := H265Packing.Plan([a, b], [], maxSize);
            TakeAll(Depot([], None), H265Packing.AllPayloads(plan, maxSize)).q != [a, b]
  {
    LonePacket(a);
    assert [a, b][1..] == [b] && [b][1..] == [] && [a] + [b] == [a, b];
    assert H265Packing.OneTurn(a, [], maxSize) == H265Packing.Turn([], [a]);
    assert H265Packing.OneTurn(b, [a], maxSize) == H265Packing.Turn([], [a, b]);
    var plan := H265Packing.Plan([a, b], [], maxSize);
    assert H265Packing.Plan([], [a, b], maxSize) == [H265Packing.Together([a, b])];
    assert H265Packing.Plan([b], [a], maxSize) == [] + [H265Packing.Together([a, b])];
    assert plan == [] + H265Packing.Plan([b], [a], maxSize);
    assert plan[0] == H265Packing.Together([a, b]) && plan[0] in plan;
    RoundTripIff([a, b], maxSize);
  }
}
