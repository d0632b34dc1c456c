/**
 What packing followed by unpacking does to a frame, for every NAL unit sequence and every packer
 configuration: when the NAL units come back unchanged, and what is lost when they do not.
 */
module NalRoundTrip {
  import opened Bytes
  import opened NalPacking
  import opened NalUnpacking

  /* ---- when a group survives the trip ---- */

  /** Decided from sizes and header bytes before anything is sent. */
  predicate Faithful(g: Group)
  {
    match g
    case Single(n) => NalType(n) != STAP_A && NalType(n) != FU_A
    case Stap(ns) => ns != [] && NalType(ns[0]) != STAP_A && forall n :: n in ns ==> |n| < 65536
    case Frag(n) => n[0] & 0x88 == 0
  }

  predicate AllFaithful(gs: seq<Group>)
  {
    forall g :: g in gs ==> Faithful(g)
  }

  /** A payload that the unpacker takes for another kind of payload than the packer meant. */
  predicate Misread(g: Group)
  {
    match g
    case Single(n) => NalType(n) == STAP_A || NalType(n) == FU_A
    case Stap(ns) => ns == [] || NalType(ns[0]) == STAP_A
    case Frag(_) => false
  }

  /** Groups as the packer plans them: aggregates have two members or more, fragments are oversized. */
  predicate WellPlanned(g: Group, maxSize: Limit)
  {
    (g.Stap? ==> |g.nalus| >= 2) && (g.Frag? ==> |g.nalu| > maxSize)
  }

  predicate AllWellPlanned(gs: seq<Group>, maxSize: Limit)
  {
    forall g :: g in gs ==> WellPlanned(g, maxSize)
  }

  lemma {:induction false} AggregatedWellPlanned(nalus: seq<Nalu>, pending: seq<Nalu>, maxSize: Limit)
    ensures AllWellPlanned(PlanAggregated(nalus, pending, maxSize), maxSize)
    decreases |nalus|
  {
    if nalus != [] {
      AggregatedWellPlanned(nalus[1..], pending + [nalus[0]], maxSize);
      AggregatedWellPlanned(nalus[1..], [nalus[0]], maxSize);
      AggregatedWellPlanned(nalus[1..], [], maxSize);
    }
  }

  lemma {:induction false} OneByOneWellPlanned(nalus: seq<Nalu>, maxSize: Limit)
    ensures AllWellPlanned(PlanOneByOne(nalus, maxSize), maxSize)
    ensures AllWellPlanned(PlanSingles(nalus), maxSize)
  {
    if nalus != [] {
      OneByOneWellPlanned(nalus[1..], maxSize);
    }
  }

  lemma PlanWellPlanned(nalus: seq<Nalu>, c: Config)
    ensures AllWellPlanned(Plan(nalus, c), c.maxSize)
  {
    AggregatedWellPlanned(nalus, [], c.maxSize);
    OneByOneWellPlanned(nalus, c.maxSize);
  }

  /* ---- fragmentation ---- */

  /** The NAL unit the aggregator rebuilds: forbidden bit cleared, bit 3 of the type lost. */
  function Rebuilt(n: Nalu): Nalu
  {
    [NalHeader(Nri(n), FuTypeMask(NalType(n)))] + n[1..]
  }

  lemma RebuiltSame(n: Nalu)
    ensures Rebuilt(n) == n <==> Faithful(Frag(n))
    ensures |Rebuilt(n)| == |n|
    ensures Rebuilt(n) != n ==> Rebuilt(n)[0] != n[0]
  {
    assert n == [n[0]] + n[1..];
    HeaderRebuilt(n[0]);
  }

  lemma HeaderRebuilt(h: octet)
    ensures NalHeader((h >> 5) & 0x3, FuTypeMask(h & 0x1f)) == h <==> h & 0x88 == 0
  {
  }

  /** The flags of a fragment neither hide nor disturb the type. */
  lemma FuHeaderReads(start: bool, end: bool, t: octet)
    requires t < 32
    ensures var h := (if start then 0x80 else 0) | (if end then 0x40 else 0) | t;
            FuTypeMask(h) == FuTypeMask(t) && (h >> 7 == 1 <==> start) && ((h >> 6) & 0x1 == 1 <==> end)
  {
  }

  lemma FuPacketFeed(d: Depot, ind: octet, start: bool, end: bool, t: octet, chunk: seq<octet>)
    requires t < 32 && ind & 0x1f == FU_A && !(start && end)
    requires start ==> |chunk| >= 1
    requires !start ==> d.fu.Some?
    ensures var fu := if start then [NalHeader((ind >> 5) & 0x3, FuTypeMask(t))] + chunk[1..] else d.fu.value + chunk;
            Absorb(d, FuPacket(ind, start, end, t, chunk))
            == if end then Depot(d.q + [fu], None) else Depot(d.q, Some(fu))
  {
    FuHeaderReads(start, end, t);
    var im := FuPacket(ind, start, end, t, chunk);
    assert im[2..] == if start then chunk[1..] else chunk;
  }

  /** The continuation fragments append the remaining bytes and the last one releases the NAL unit. */
  lemma {:induction false} FuTailAbsorbed(q: seq<seq<octet>>, x: seq<octet>, rest: seq<octet>,
                                          ind: octet, t: octet, chunk: nat)
    requires chunk >= 1 && t < 32 && ind & 0x1f == FU_A
    ensures AbsorbAll(Depot(q, Some(x)), FuTail(rest, ind, false, t, chunk)) == Depot(q + [x + rest], None)
    decreases |rest|
  {
    var d := Depot(q, Some(x));
    if |rest| > chunk {
      var first, tail := FuPacket(ind, false, false, t, rest[..chunk]), FuTail(rest[chunk..], ind, false, t, chunk);
      FuPacketFeed(d, ind, false, false, t, rest[..chunk]);
      FuTailAbsorbed(q, x + rest[..chunk], rest[chunk..], ind, t, chunk);
      assert x + rest[..chunk] + rest[chunk..] == x + rest;
      AbsorbCons(d, first, tail);
    } else {
      FuPacketFeed(d, ind, false, true, t, rest);
      AbsorbCons(d, FuPacket(ind, false, true, t, rest), []);
    }
  }

  lemma AbsorbCons(d: Depot, p: seq<octet>, ps: seq<seq<octet>>)
    ensures AbsorbAll(d, [p] + ps) == AbsorbAll(Absorb(d, p), ps)
  {
    assert ([p] + ps)[1..] == ps;
  }

  /** What is left to absorb once the start fragment, which carries all but the first byte of `head`, is in. */
  lemma FragTailAbsorbed(d: Depot, head: seq<octet>, rest: seq<octet>, ind: octet, t: octet, chunk: nat)
    requires |head| >= 1 && chunk >= 1 && t < 32 && ind & 0x1f == FU_A
    ensures AbsorbAll(d, [FuPacket(ind, true, false, t, head)] + FuTail(rest, ind, false, t, chunk))
         == Depot(d.q + [[NalHeader((ind >> 5) & 0x3, FuTypeMask(t))] + (head[1..] + rest)], None)
  {
    var h := NalHeader((ind >> 5) & 0x3, FuTypeMask(t));
    FuPacketFeed(d, ind, true, false, t, head);
    AbsorbCons(d, FuPacket(ind, true, false, t, head), FuTail(rest, ind, false, t, chunk));
    FuTailAbsorbed(d.q, [h] + head[1..], rest, ind, t, chunk);
    Assoc([h], head[1..], rest);
  }

  lemma FragAbsorbed(d: Depot, n: Nalu, maxSize: Limit)
    requires |n| > maxSize
    ensures AbsorbAll(d, FuPackets(n, maxSize)) == Depot(d.q + [Rebuilt(n)], None)
  {
    var ind, t, chunk := NalHeader(Nri(n), FU_A), NalType(n), maxSize - 2;
    FragTailAbsorbed(d, n[..chunk], n[chunk..], ind, t, chunk);
    assert n[..chunk][1..] + n[chunk..] == n[1..];
  }

  /** Continuation fragments without their start are dropped, the last one too. */
  lemma {:induction false} HeadlessDropped(d: Depot, rest: seq<octet>, ind: octet, t: octet, chunk: nat)
    requires chunk >= 1 && t < 32 && ind & 0x1f == FU_A && d.fu.None?
    ensures AbsorbAll(d, FuTail(rest, ind, false, t, chunk)) == d
    decreases |rest|
  {
    if |rest| > chunk {
      HeadlessFragment(d, ind, false, t, rest[..chunk]);
      HeadlessDropped(d, rest[chunk..], ind, t, chunk);
      AbsorbCons(d, FuPacket(ind, false, false, t, rest[..chunk]), FuTail(rest[chunk..], ind, false, t, chunk));
    } else {
      HeadlessFragment(d, ind, true, t, rest);
      AbsorbCons(d, FuPacket(ind, false, true, t, rest), []);
    }
  }

  lemma HeadlessFragment(d: Depot, ind: octet, end: bool, t: octet, chunk: seq<octet>)
    requires t < 32 && ind & 0x1f == FU_A && d.fu.None?
    ensures Absorb(d, FuPacket(ind, false, end, t, chunk)) == d
  {
    FuHeaderReads(false, end, t);
    var im := FuPacket(ind, false, end, t, chunk);
    assert im[0] == ind;
  }

  /** A NAL unit that lost its first fragment leaves no byte behind. */
  lemma StartLost(d: Depot, n: Nalu, maxSize: Limit)
    requires |n| > maxSize && d.fu.None?
    ensures |FuPackets(n, maxSize)| >= 2 && AbsorbAll(d, FuPackets(n, maxSize)[1..]) == d
  {
    var ind, t, chunk := NalHeader(Nri(n), FU_A), NalType(n), maxSize - 2;
    HeadlessDropped(d, n[chunk..], ind, t, chunk);
    assert FuPackets(n, maxSize)[1..] == FuTail(n[chunk..], ind, false, t, chunk);
  }

  /** A NAL unit sent on its own is stored and abandons a fragmented one under construction. */
  lemma SingleAbandons(d: Depot, n: Nalu)
    requires NalType(n) != STAP_A && NalType(n) != FU_A
    ensures Absorb(d, n).q == d.q + [n] && Absorb(d, n).fu == None
  {
  }

  /* ---- aggregation ---- */

  lemma {:induction false} EntriesCons(n: Nalu, ns: seq<Nalu>)
    ensures Entries([n] + ns) == SizeField(|n|) + n + Entries(ns)
    decreases |ns|
  {
    if ns == [] {
      OneEntry(n);
      assert [n] + ns == [n];
    } else {
      var front, last := ns[..|ns| - 1], ns[|ns| - 1];
      assert ns == front + [last] && [n] + ns == ([n] + front) + [last];
      EntriesCons(n, front);
      EntriesSnoc([n] + front, last);
      EntriesSnoc(front, last);
      Assoc4(SizeField(|n|) + n, Entries(front), SizeField(|last|), last);
    }
  }

  lemma TakeEntry(field: seq<octet>, a: seq<octet>, b: seq<octet>)
    requires |field| == 2 && |a| == BigEndian(field[0], field[1])
    ensures StapEntries(field + a + b) == [a] + StapEntries(b)
  {
    var s := field + a + b;
    Slices(field, a, b);
    assert s[0] == field[0] && s[1] == field[1];
  }

  lemma ReadEntry(s: seq<octet>, k: nat, field: seq<octet>, entry: seq<octet>, rest: seq<octet>)
    requires |field| == 2 && s == field + entry + rest && k == BigEndian(field[0], field[1]) <= |entry|
    ensures StapEntries(s) == [entry[..k]] + StapEntries(entry[k..] + rest)
  {
    assert s == field + entry[..k] + (entry[k..] + rest);
    TakeEntry(field, entry[..k], entry[k..] + rest);
  }

  /** The splitter reads the low 16 bits of each size. */
  lemma SplitFirst(n: Nalu, tail: seq<octet>) returns (k: nat)
    ensures k <= |n| && k < 65536 && (|n| < 65536 ==> k == |n|)
    ensures StapEntries(SizeField(|n|) + n + tail) == [n[..k]] + StapEntries(n[k..] + tail)
  {
    var field := SizeField(|n|);
    k := BigEndian(field[0], field[1]);
    SizeFieldReads(|n|, k);
    ReadEntry(field + n + tail, k, field, n, tail);
  }

  lemma SplitSmall(n: Nalu, tail: seq<octet>)
    requires |n| < 65536
    ensures StapEntries(SizeField(|n|) + n + tail) == [n] + StapEntries(tail)
  {
    var k := SplitFirst(n, tail);
    assert n[..k] == n && n[k..] + tail == tail;
  }

  /** The splitter inverts the aggregator, unless a size does not fit its field; then they disagree. */
  lemma {:induction false} SplitEntries(ns: seq<Nalu>)
    ensures (forall n :: n in ns ==> |n| < 65536) ==> StapEntries(Entries(ns)) == ns
    ensures !(forall n :: n in ns ==> |n| < 65536) ==> Clash(StapEntries(Entries(ns)), ns)
  {
    if ns != [] {
      var n, rest := ns[0], ns[1..];
      assert ns == [n] + rest;
      EntriesCons(n, rest);
      if |n| < 65536 {
        SplitSmall(n, Entries(rest));
        SplitEntries(rest);
        if Clash(StapEntries(Entries(rest)), rest) {
          ClashInContext<seq<octet>>([n], StapEntries(Entries(rest)), [], rest, []);
          assert [n] + StapEntries(Entries(rest)) + [] == StapEntries(Entries(ns)) && [n] + rest + [] == ns;
        }
      } else {
        var k := SplitFirst(n, Entries(rest));
        assert |StapEntries(Entries(ns))[0]| == k != |ns[0]|;
        assert n in ns;
      }
    }
  }

  /** Of an aggregate that is cut off, the entries before the cut are taken. */
  lemma {:induction false} CutAggregate(ns: seq<Nalu>, d: seq<octet>)
    requires forall n :: n in ns ==> |n| < 65536
    requires |d| >= 2 ==> |d| < 2 + BigEndian(d[0], d[1])
    ensures StapEntries(Entries(ns) + d) == ns
  {
    if ns == [] {
      assert Entries(ns) + d == d;
    } else {
      var n, rest := ns[0], ns[1..];
      assert n in ns && ns == [n] + rest;
      EntriesCons(n, rest);
      CutAggregate(rest, d);
      SplitSmall(n, Entries(rest) + d);
      Assoc(SizeField(|n|) + n, Entries(rest), d);
    }
  }

  /* ---- groups that are not misread ---- */

  /** What the unpacker gets out of a group that it reads as intended. */
  function Received(g: Group): seq<seq<octet>>
  {
    match g
    case Single(n) => [n]
    case Stap(ns) => StapEntries(Entries(ns))
    case Frag(n) => [Rebuilt(n)]
  }

  lemma ReceivedIff(g: Group)
    requires !Misread(g)
    ensures Faithful(g) ==> Received(g) == Items(g)
    ensures !Faithful(g) ==> Clash(Received(g), Items(g))
  {
    match g
    case Single(n) =>
    case Stap(ns) => SplitEntries(ns);
    case Frag(n) =>
      RebuiltSame(n);
      assert Received(g)[0] == Rebuilt(n) && Items(g)[0] == n;
  }

  lemma GroupAbsorbed(q: seq<seq<octet>>, g: Group, maxSize: Limit)
    requires WellPlanned(g, maxSize) && !Misread(g)
    ensures AbsorbAll(Depot(q, None), Wire(g, maxSize)) == Depot(q + Received(g), None)
  {
    var d := Depot(q, None);
    match g
    case Single(n) => AbsorbCons(d, n, []);
    case Stap(ns) =>
      var p := StapBytes(ns);
      assert p[1..] == Entries(ns) && NalType(p) == STAP_A;
      AbsorbCons(d, p, []);
    case Frag(n) => FragAbsorbed(d, n, maxSize);
  }

  function AllReceived(gs: seq<Group>): seq<seq<octet>>
  {
    if gs == [] then [] else Received(gs[0]) + AllReceived(gs[1..])
  }

  lemma {:induction false} GroupsAbsorbed(q: seq<seq<octet>>, gs: seq<Group>, maxSize: Limit)
    requires AllWellPlanned(gs, maxSize) && forall g :: g in gs ==> !Misread(g)
    ensures AbsorbAll(Depot(q, None), WireAll(gs, maxSize)) == Depot(q + AllReceived(gs), None)
    decreases |gs|
  {
    if gs == [] {
      assert q + [] == q;
    } else {
      assert gs[0] in gs;
      GroupAbsorbed(q, gs[0], maxSize);
      AbsorbAppend(Depot(q, None), Wire(gs[0], maxSize), WireAll(gs[1..], maxSize));
      GroupsAbsorbed(q + Received(gs[0]), gs[1..], maxSize);
      Assoc(q, Received(gs[0]), AllReceived(gs[1..]));
    }
  }

  lemma {:induction false} AllReceivedIff(gs: seq<Group>)
    requires forall g :: g in gs ==> !Misread(g)
    ensures AllReceived(gs) == AllItems(gs) <==> AllFaithful(gs)
  {
    if gs != [] {
      AllReceivedIff(gs[1..]);
      HeadReceivedIff(gs[0], AllReceived(gs[1..]), AllItems(gs[1..]));
      assert AllFaithful(gs) <==> Faithful(gs[0]) && AllFaithful(gs[1..]);
    }
  }

  lemma HeadReceivedIff(g: Group, received: seq<seq<octet>>, items: seq<seq<octet>>)
    requires !Misread(g)
    ensures Received(g) + received == Items(g) + items <==> Faithful(g) && received == items
  {
    ReceivedIff(g);
    if Faithful(g) {
      SamePrefix<seq<octet>>(Items(g), received, items);
    } else {
      ClashInContext<seq<octet>>([], Received(g), received, Items(g), items);
      assert [] + Received(g) + received == Received(g) + received;
      assert [] + Items(g) + items == Items(g) + items;
    }
  }

  /* ---- misread groups lose bytes ---- */

  /** Stored bytes plus two per stored NAL unit, counting the fragment under construction. */
  function Weight(nalus: seq<seq<octet>>): nat
  {
    if nalus == [] then 0 else |nalus[0]| + 2 + Weight(nalus[1..])
  }

  function DepotWeight(d: Depot): nat
  {
    Weight(d.q) + (if d.fu.Some? then |d.fu.value| + 2 else 0)
  }

  lemma {:induction false} WeightAppend(a: seq<seq<octet>>, b: seq<seq<octet>>)
    ensures Weight(a + b) == Weight(a) + Weight(b)
  {
    if a == [] {
      assert a + b == b;
    } else {
      assert (a + b)[1..] == a[1..] + b;
      WeightAppend(a[1..], b);
    }
  }

  lemma WeightOne(n: seq<octet>)
    ensures Weight([n]) == |n| + 2
  {
    assert [n][1..] == [];
  }

  lemma {:induction false} EntriesWeight(ns: seq<Nalu>)
    ensures Weight(ns) == EntriesSize(ns)
  {
    if ns != [] {
      var front, last := ns[..|ns| - 1], ns[|ns| - 1];
      EntriesWeight(front);
      WeightAppend(front, [last]);
      WeightOne(last);
      assert ns == front + [last];
    }
  }

  lemma {:induction false} SplitWeight(s: seq<octet>)
    ensures Weight(StapEntries(s)) <= |s|
    decreases |s|
  {
    if |s| >= 2 {
      var size := BigEndian(s[0], s[1]);
      if |s| >= 2 + size {
        var tail := s[2 + size..];
        SplitWeight(tail);
        assert StapEntries(s)[1..] == StapEntries(tail);
      }
    }
  }

  /** No payload adds more than its own weight; a payload of type 24 or 28 adds strictly less. */
  lemma AbsorbWeight(d: Depot, im: Nalu)
    ensures DepotWeight(Absorb(d, im)) <= DepotWeight(d) + |im| + 2
    ensures NalType(im) == FU_A ==> DepotWeight(Absorb(d, im)) < DepotWeight(d) + |im| + 2
    ensures NalType(im) == STAP_A ==> DepotWeight(Absorb(d, im)) <= DepotWeight(d) + |im| - 1
  {
    if NalType(im) == FU_A {
      if |im| >= 2 {
        var d' := FuFeed(d, im);
        if d'.q != d.q {
          WeightAppend(d.q, [d'.q[|d.q|]]);
          WeightOne(d'.q[|d.q|]);
        }
      }
    } else if NalType(im) == STAP_A {
      SplitWeight(im[1..]);
      WeightAppend(d.q, StapEntries(im[1..]));
    } else {
      WeightAppend(d.q, [im]);
      WeightOne(im);
    }
  }

  lemma GroupWeight(d: Depot, g: Group, maxSize: Limit)
    requires WellPlanned(g, maxSize)
    ensures var w := DepotWeight(AbsorbAll(d, Wire(g, maxSize)));
            w <= DepotWeight(d) + Weight(Items(g)) && (Misread(g) ==> w < DepotWeight(d) + Weight(Items(g)))
  {
    match g
    case Single(n) =>
      AbsorbCons(d, n, []);
      AbsorbWeight(d, n);
      WeightOne(n);
    case Stap(ns) =>
      AbsorbCons(d, StapBytes(ns), []);
      StapIsStap(ns);
      StapBytesSize(ns);
      AbsorbWeight(d, StapBytes(ns));
      EntriesWeight(ns);
    case Frag(n) =>
      FragAbsorbed(d, n, maxSize);
      WeightAppend(d.q, [Rebuilt(n)]);
      WeightOne(Rebuilt(n));
      WeightOne(n);
      RebuiltSame(n);
  }

  lemma {:induction false} GroupsWeight(d: Depot, gs: seq<Group>, maxSize: Limit)
    requires AllWellPlanned(gs, maxSize)
    ensures var w := DepotWeight(AbsorbAll(d, WireAll(gs, maxSize)));
            && w <= DepotWeight(d) + Weight(AllItems(gs))
            && ((exists g :: g in gs && Misread(g)) ==> w < DepotWeight(d) + Weight(AllItems(gs)))
    decreases |gs|
  {
    if gs != [] {
      var d' := AbsorbAll(d, Wire(gs[0], maxSize));
      assert gs[0] in gs;
      GroupWeight(d, gs[0], maxSize);
      GroupsWeight(d', gs[1..], maxSize);
      AbsorbAppend(d, Wire(gs[0], maxSize), WireAll(gs[1..], maxSize));
      WeightAppend(Items(gs[0]), AllItems(gs[1..]));
    }
  }

  /* ---- the payload-level theorem ---- */

  /** For every NAL unit sequence and configuration, the stored NAL units are the packed ones exactly
      when every planned group is faithful. */
  lemma PayloadsRoundTrip(nalus: seq<Nalu>, c: Config)
    ensures AbsorbAll(Depot([], None), WireAll(Plan(nalus, c), c.maxSize)).q == nalus <==> AllFaithful(Plan(nalus, c))
    ensures AllFaithful(Plan(nalus, c)) ==> AbsorbAll(Depot([], None), WireAll(Plan(nalus, c), c.maxSize)).fu == None
  {
    var gs := Plan(nalus, c);
    PlanConserves(nalus, c);
    PlanWellPlanned(nalus, c);
    if exists g :: g in gs && Misread(g) {
      MisreadLoses(gs, c.maxSize);
    } else {
      GroupsAbsorbed([], gs, c.maxSize);
      assert [] + AllReceived(gs) == AllReceived(gs);
      AllReceivedIff(gs);
    }
  }

  lemma MisreadLoses(gs: seq<Group>, maxSize: Limit)
    requires AllWellPlanned(gs, maxSize) && exists g :: g in gs && Misread(g)
    ensures AbsorbAll(Depot([], None), WireAll(gs, maxSize)).q != AllItems(gs)
    ensures !AllFaithful(gs)
  {
    var g :| g in gs && Misread(g);
    assert !Faithful(g);
    GroupsWeight(Depot([], None), gs, maxSize);
  }

  lemma PlanOfOne(n: Nalu, c: Config)
    requires |n| > c.maxSize && c.mode.NonInterleavedMode?
    ensures Plan([n], c) == [Frag(n)]
  {
    if c.aggregation {
      PlanTurn(n, [], [], [Frag(n)], [], c.maxSize);
      assert [n] + [] == [n] && PlanAggregated([], [], c.maxSize) == [];
    } else {
      assert [n][1..] == [] && PlanOneByOne([], c.maxSize) == [];
    }
  }

  /** The round trip is not unconditional: a picture parameter set (type 8) larger than a payload comes
      back with type 0. */
  lemma OversizedParameterSet(n: Nalu, c: Config)
    requires NalType(n) == 8 && |n| > c.maxSize && c.mode.NonInterleavedMode?
    ensures AbsorbAll(Depot([], None), WireAll(Plan([n], c), c.maxSize)).q == [[NalHeader(Nri(n), 0)] + n[1..]]
    ensures !AllFaithful(Plan([n], c))
  {
    PlanOfOne(n, c);
    LoneFragment(n, c.maxSize, [Frag(n)]);
    TypeLost(n);
  }

  lemma LoneFragment(n: Nalu, maxSize: Limit, gs: seq<Group>)
    requires gs == [Frag(n)] && |n| > maxSize
    ensures AbsorbAll(Depot([], None), WireAll(gs, maxSize)).q == [Rebuilt(n)]
  {
    WireNonEmpty(Frag(n), maxSize);
    FragAbsorbed(Depot([], None), n, maxSize);
    assert [] + [Rebuilt(n)] == [Rebuilt(n)];
  }

  lemma TypeLost(n: Nalu)
    requires NalType(n) == 8
    ensures Rebuilt(n) == [NalHeader(Nri(n), 0)] + n[1..] && !AllFaithful([Frag(n)])
  {
    assert Frag(n) in [Frag(n)];
  }
}
