/**
 What the H.264 unpacker makes of losses: packets missing inside a frame, and a frame whose last packets,
 and with them its marker, are missing.
 */
module NalLoss {
  import opened Bytes
  import opened NalPacking
  import opened NalUnpacking
  import opened NalRoundTrip
  import opened NalDelivery

  /* ---- losses inside a frame ---- */

  lemma {:induction false} PayloadsAre(ps: seq<Packet>, pl: seq<seq<octet>>)
    requires |ps| == |pl| && forall k :: 0 <= k < |ps| ==> ps[k].payload == pl[k]
    ensures Payloads(ps) == pl
  {
    if ps != [] {
      PayloadsAre(ps[1..], pl[1..]);
    }
  }

  lemma {:induction false} StampedPayload(pl: seq<seq<octet>>, ts: nat, c: nat, k: nat)
    requires k < |pl|
    ensures Stamped(pl, ts, c, true)[k] == Packet(pl[k], ts, k == |pl| - 1, (c + k) % 65536)
  {
    if k > 0 {
      StampedPayload(pl[1..], ts, c + 1, k - 1);
    }
  }

  /** What is left of a frame that lost packets in the middle is still one frame. */
  lemma RestIsFrame(pl: seq<seq<octet>>, ts: nat, cseq: nat, i: nat, j: nat, got: seq<Packet>)
    requires i < j < |pl| && got == Stamped(pl, ts, cseq, true)[..i] + Stamped(pl, ts, cseq, true)[j..]
    ensures OneFrame(got, ts) && Payloads(got) == pl[..i] + pl[j..]
  {
    var rest := pl[..i] + pl[j..];
    forall k | 0 <= k < |got|
      ensures got[k].payload == rest[k] && got[k].timestamp == ts && (got[k].marker <==> k == |got| - 1)
    {
      StampedPayload(pl, ts, cseq, if k < i then k else k - i + j);
    }
    PayloadsAre(got, rest);
  }

  lemma FrameDelivers(s: Assembler, ps: seq<Packet>, ts: nat, bad: bool) returns (s': Assembler)
    requires OneFrame(ps, ts) && Keeps(s, ts) && s.status == NO_STATUS
    requires bad <==> Gap(s.initialized, s.refCSeq, ps)
    ensures Delivers(s, ps, s', [Frame(AbsorbAll(s.depot, Payloads(ps)).q, Status(true, bad, false))])
  {
    FrameDelivered(s, ps, ts);
    s' := Deliver(s, ps).state;
  }

  /** Losing the packets i..j of a frame, but not its last one: the frame is made of the other payloads, and
      is reported corrupted exactly when the number lost is not a multiple of 2^16 and the unpacker had seen a
      packet before. */
  lemma LossReported(s: Assembler, pl: seq<seq<octet>>, ts: nat, cseq: nat, i: nat, j: nat) returns (s': Assembler)
    requires Ready(s, cseq) && i < j < |pl|
    ensures var ps := Stamped(pl, ts, cseq, true);
            Delivers(s, ps[..i] + ps[j..], s',
                     [Frame(AbsorbAll(Depot([], None), pl[..i] + pl[j..]).q,
                            Status(true, (s.initialized || i > 0) && (j - i) % 65536 != 0, false))])
  {
    var got := Stamped(pl, ts, cseq, true)[..i] + Stamped(pl, ts, cseq, true)[j..];
    RestIsFrame(pl, ts, cseq, i, j, got);
    LossGap(s, pl, ts, cseq, i, j);
    s' := FrameDelivers(s, got, ts, (s.initialized || i > 0) && (j - i) % 65536 != 0);
  }

  lemma LossGap(s: Assembler, pl: seq<seq<octet>>, ts: nat, cseq: nat, i: nat, j: nat)
    requires Ready(s, cseq) && i < j < |pl|
    ensures var ps := Stamped(pl, ts, cseq, true);
            Gap(s.initialized, s.refCSeq, ps[..i] + ps[j..]) <==> (s.initialized || i > 0) && (j - i) % 65536 != 0
  {
    var ps := Stamped(pl, ts, cseq, true);
    var got := ps[..i] + ps[j..];
    StampedNumbers(pl, ts, cseq, true);
    forall k | 0 <= k < |got|
      ensures got[k].cseq == Shifted(cseq, k, i, j - i) % 65536
    {
      assert got[k] == ps[if k < i then k else k - i + j];
    }
    ShiftedGap(s.initialized, s.refCSeq, got, cseq, i, j - i);
  }

  /** The k-th sequence number when `d` packets are missing after the first `i`. */
  function Shifted(c: nat, k: nat, i: nat, d: nat): nat
  {
    if k < i then c + k else c + k + d
  }

  lemma ShiftedGap(initialized: bool, ref: nat, ps: seq<Packet>, c: nat, i: nat, d: nat)
    requires i < |ps| && (initialized ==> (ref + 1) % 65536 == c % 65536)
    requires forall k :: 0 <= k < |ps| ==> ps[k].cseq == Shifted(c, k, i, d) % 65536
    ensures Gap(initialized, ref, ps) <==> (initialized || i > 0) && d % 65536 != 0
  {
    GapIff(initialized, ref, ps);
    forall k | 1 <= k < |ps|
      ensures (ps[k - 1].cseq + 1) % 65536 == ps[k].cseq <==> k != i || d % 65536 == 0
    {
      ShiftedStep(c, k, i, d);
    }
    SameModulo(c, d);
    if i > 0 {
      assert (ps[i - 1].cseq + 1) % 65536 == ps[i].cseq <==> d % 65536 == 0;
    }
  }

  lemma ShiftedStep(c: nat, k: nat, i: nat, d: nat)
    requires k >= 1
    ensures (Shifted(c, k - 1, i, d) % 65536 + 1) % 65536 == Shifted(c, k, i, d) % 65536 <==> k != i || d % 65536 == 0
  {
    Successor(Shifted(c, k - 1, i, d));
    SameModulo(c + i, d);
  }

  lemma SameModulo(c: nat, d: nat)
    ensures (c + d) % 65536 == c % 65536 <==> d % 65536 == 0
  {
  }

  /** What the unpacker stores of a faithful frame in which one fragmented NAL unit lost its first packet. */
  lemma StartLostStored(before: seq<Group>, n: Nalu, after: seq<Group>, maxSize: Limit)
    requires AllFaithful(before) && AllFaithful(after) && |n| > maxSize
    requires AllWellPlanned(before, maxSize) && AllWellPlanned(after, maxSize)
    ensures AbsorbAll(Depot([], None),
                      WireAll(before, maxSize) + (FuPackets(n, maxSize)[1..] + WireAll(after, maxSize)))
         == Depot(AllItems(before) + AllItems(after), None)
  {
    var d, rest := Depot([], None), FuPackets(n, maxSize)[1..];
    var stored := Depot(AllItems(before), None);
    FaithfulStored([], before, maxSize);
    assert [] + AllItems(before) == AllItems(before);
    AbsorbAppend(d, WireAll(before, maxSize), rest + WireAll(after, maxSize));
    StartLost(stored, n, maxSize);
    AbsorbAppend(stored, rest, WireAll(after, maxSize));
    FaithfulStored(AllItems(before), after, maxSize);
  }

  lemma FaithfulStored(q: seq<seq<octet>>, gs: seq<Group>, maxSize: Limit)
    requires AllFaithful(gs) && AllWellPlanned(gs, maxSize)
    ensures AbsorbAll(Depot(q, None), WireAll(gs, maxSize)) == Depot(q + AllItems(gs), None)
  {
    forall g | g in gs
      ensures !Misread(g)
    {
      assert Faithful(g);
    }
    GroupsAbsorbed(q, gs, maxSize);
    AllReceivedIff(gs);
  }

  lemma WithoutFirst(a: seq<seq<octet>>, b: seq<seq<octet>>, c: seq<seq<octet>>)
    requires |b| >= 1
    ensures var pl, i := a + (b + c), |a|; pl[..i] + pl[i + 1..] == a + (b[1..] + c)
  {
  }

  /** A frame planned as `before`, a fragmented NAL unit `n` and `after`, of which only the first packet of `n` is
      lost: every other NAL unit comes out, no byte of `n` does, and the frame is reported corrupted if a packet
      had been seen before the loss. */
  lemma LostStartDelivered(s: Assembler, nalus: seq<Nalu>, c: Config, before: seq<Group>, n: Nalu, after: seq<Group>,
                           ts: nat, cseq: nat)
    returns (s': Assembler)
    requires Ready(s, cseq) && Plan(nalus, c) == before + ([Frag(n)] + after)
    requires AllFaithful(before) && AllFaithful(after)
    ensures var ps, i := Packed(nalus, c, ts, cseq), |WireAll(before, c.maxSize)|;
            && i + 1 < |ps|
            && Delivers(s, ps[..i] + ps[i + 1..], s',
                        [Frame(AllItems(before) + AllItems(after), Status(true, s.initialized || i > 0, false))])
  {
    var m := c.maxSize;
    PlanWellPlanned(nalus, c);
    PartsWellPlanned(before, n, after, m, Plan(nalus, c));
    PartsOnWire(before, n, after, m);
    s' := OneStartLost(s, before, n, after, m, WireAll(before, m) + (FuPackets(n, m) + WireAll(after, m)), ts, cseq);
  }

  lemma PartsWellPlanned(before: seq<Group>, n: Nalu, after: seq<Group>, m: Limit, plan: seq<Group>)
    requires plan == before + ([Frag(n)] + after) && AllWellPlanned(plan, m)
    ensures AllWellPlanned(before, m) && AllWellPlanned(after, m) && |n| > m
  {
    assert forall g :: g in before ==> g in plan;
    assert forall g :: g in after ==> g in plan;
    assert Frag(n) in plan;
  }

  lemma OneStartLost(s: Assembler, before: seq<Group>, n: Nalu, after: seq<Group>, m: Limit, pl: seq<seq<octet>>,
                     ts: nat, cseq: nat)
    returns (s': Assembler)
    requires Ready(s, cseq) && pl == WireAll(before, m) + (FuPackets(n, m) + WireAll(after, m))
    requires AllFaithful(before) && AllFaithful(after) && |n| > m
    requires AllWellPlanned(before, m) && AllWellPlanned(after, m)
    ensures var ps, i := Stamped(pl, ts, cseq, true), |WireAll(before, m)|;
            && i + 1 < |ps|
            && Delivers(s, ps[..i] + ps[i + 1..], s',
                        [Frame(AllItems(before) + AllItems(after), Status(true, s.initialized || i > 0, false))])
  {
    var a, b, z := WireAll(before, m), FuPackets(n, m), WireAll(after, m);
    StartLost(Depot([], None), n, m);
    StartLostStored(before, n, after, m);
    WithoutFirst(a, b, z);
    s' := LossReported(s, pl, ts, cseq, |a|, |a| + 1);
  }

  lemma PartsOnWire(before: seq<Group>, n: Nalu, after: seq<Group>, maxSize: Limit)
    ensures WireAll(before + ([Frag(n)] + after), maxSize)
         == WireAll(before, maxSize) + (FuPackets(n, maxSize) + WireAll(after, maxSize))
  {
    WireAllAppend(before, [Frag(n)] + after, maxSize);
    WireAllAppend([Frag(n)], after, maxSize);
    WireNonEmpty(Frag(n), maxSize);
  }

  /* ---- a frame without its end ---- */

  lemma StampedGap(initialized: bool, ref: nat, pl: seq<seq<octet>>, ts: nat, c: nat)
    requires pl != []
    ensures Gap(initialized, ref, Stamped(pl, ts, c, true)) <==> initialized && (ref + 1) % 65536 != c % 65536
  {
    var ps := Stamped(pl, ts, c, true);
    StampedNumbers(pl, ts, c, true);
    GapIff(initialized, ref, ps);
    forall i | 1 <= i < |ps|
      ensures (ps[i - 1].cseq + 1) % 65536 == ps[i].cseq
    {
      Successor(c + i - 1);
    }
  }

  /** The unpacker after payloads in sequence that are not marked as a frame's end. */
  function Pushed(s: Assembler, pl: seq<seq<octet>>, ts: nat, c: nat): Assembler
  {
    if pl == [] then s
    else
      s.(depot := AbsorbAll(s.depot, pl), lastTs := ts, initialized := true, refCSeq := (c + |pl| - 1) % 65536)
  }

  ghost predicate InTurn(s: Assembler, c: nat)
  {
    s.status == NO_STATUS && (s.initialized ==> (s.refCSeq + 1) % 65536 == c % 65536)
  }

  lemma {:induction false} PushedDelivered(s: Assembler, pl: seq<seq<octet>>, ts: nat, c: nat)
    requires Keeps(s, ts) && InTurn(s, c)
    ensures Delivers(s, Stamped(pl, ts, c, false), Pushed(s, pl, ts, c), [])
    decreases |pl|
  {
    if pl != [] {
      var p := Packet(pl[0], ts, false, c % 65536);
      var s1 := s.(depot := Absorb(s.depot, pl[0]), lastTs := ts, initialized := true, refCSeq := c % 65536);
      PushPacket(s, p);
      assert Step(s, p) == Outcome(s1, [], NO_STATUS);
      Successor(c);
      PushedDelivered(s1, pl[1..], ts, c + 1);
      PushedOnce(s, p, s1, Stamped(pl[1..], ts, c + 1, false), Pushed(s1, pl[1..], ts, c + 1));
      assert pl == [pl[0]] + pl[1..];
      AbsorbCons(s.depot, pl[0], pl[1..]);
    }
  }

  lemma PushedOnce(s: Assembler, p: Packet, s1: Assembler, ps: seq<Packet>, s2: Assembler)
    requires Step(s, p) == Outcome(s1, [], NO_STATUS) && Delivers(s1, ps, s2, [])
    ensures Delivers(s, [p] + ps, s2, [])
  {
    DeliverOne(s, p, Step(s, p));
    var none: seq<Frame> := [];
    DeliversBoth(s, [p], s1, none, ps, s2, none);
    assert none + none == none;
  }

  /** The next packet, number `c`, does not follow the last one. */
  predicate Late(s: Assembler, c: nat)
  {
    s.initialized && (s.refCSeq + 1) % 65536 != c % 65536
  }

  /** The next frame when nothing is pushed out: it takes in what was stored. */
  lemma NextFrameKept(s: Assembler, pl: seq<seq<octet>>, ts: nat, c: nat) returns (s': Assembler)
    requires Keeps(s, ts) && s.status == NO_STATUS && pl != []
    ensures Delivers(s, Stamped(pl, ts, c, true), s',
                     [Frame(AbsorbAll(s.depot, pl).q, Status(true, Late(s, c), false))])
  {
    StampedFrame(pl, ts, c);
    StampedGap(s.initialized, s.refCSeq, pl, ts, c);
    s' := FrameDelivers(s, Stamped(pl, ts, c, true), ts, Late(s, c));
  }

  /** A stored frame that the next timestamp pushes out. */
  predicate PushedOut(s: Assembler, ts: nat)
  {
    !Keeps(s, ts) && s.status == NO_STATUS
  }

  /** A next frame of one packet leaves in the same call: one frame is announced for both. */
  lemma NextFrameMerged(s: Assembler, payload: seq<octet>, ts: nat, c: nat) returns (s': Assembler)
    requires PushedOut(s, ts)
    ensures Delivers(s, Stamped([payload], ts, c, true), s',
                     [Frame(s.depot.q + Absorb(Depot([], None), payload).q, Status(true, Late(s, c), false))])
  {
    var p := Packet(payload, ts, true, c % 65536);
    StampedOne(payload, ts, c, true);
    var d := Absorb(Depot([], None), payload);
    var o := Step(s, p);
    assert [] + s.depot.q == s.depot.q && [] + d.q == d.q;
    assert o.out == s.depot.q + d.q && o.ret == Status(true, Late(s, c), false);
    DeliverOne(s, p, o);
    s' := o.state;
  }

  lemma ReleasingStep(s: Assembler, p: Packet)
    requires PushedOut(s, p.timestamp) && !p.marker && p.cseq < 65536
    ensures Step(s, p) == Outcome(
              s.(depot := Absorb(Depot([], None), p.payload), lastTs := p.timestamp, initialized := true,
                 refCSeq := p.cseq,
                 status := Status(false, Late(s, p.cseq), false)),
              s.depot.q, Status(true, p.cseq != s.refCSeq + 1, false))
  {
    assert [] + s.depot.q == s.depot.q;
  }

  /** A longer next frame: the stored frame is announced by its first packet. */
  lemma NextFrameApart(s: Assembler, pl: seq<seq<octet>>, ts: nat, c: nat) returns (s': Assembler)
    requires PushedOut(s, ts) && |pl| >= 2
    ensures Delivers(s, Stamped(pl, ts, c, true), s',
                     [Frame(s.depot.q, Status(true, c % 65536 != s.refCSeq + 1, false)),
                      Frame(AbsorbAll(Depot([], None), pl).q, Status(true, Late(s, c), false))])
  {
    var p := Packet(pl[0], ts, false, c % 65536);
    ReleasingStep(s, p);
    var o := Step(s, p);
    DeliverOne(s, p, o);
    var f2: Frame;
    s', f2 := RestDelivered(o.state, pl[1..], ts, c + 1, Late(s, c));
    var f1 := Frame(s.depot.q, Status(true, c % 65536 != s.refCSeq + 1, false));
    DeliversBoth(s, [p], o.state, [f1], Stamped(pl[1..], ts, c + 1, true), s', [f2]);
    assert pl == [pl[0]] + pl[1..] && [f1] + [f2] == [f1, f2];
    AbsorbCons(Depot([], None), pl[0], pl[1..]);
  }

  lemma RestDelivered(s: Assembler, pl: seq<seq<octet>>, ts: nat, c: nat, bad: bool) returns (s': Assembler, f: Frame)
    requires s.lastTs == ts && s.initialized && s.status == Status(false, bad, false) && pl != []
    requires (s.refCSeq + 1) % 65536 == c % 65536
    ensures f == Frame(AbsorbAll(s.depot, pl).q, Status(true, bad, false))
    ensures Delivers(s, Stamped(pl, ts, c, true), s', [f])
  {
    StampedFrame(pl, ts, c);
    StampedGap(true, s.refCSeq, pl, ts, c);
    FrameDelivered(s, Stamped(pl, ts, c, true), ts);
    s' := Deliver(s, Stamped(pl, ts, c, true)).state;
    f := Frame(AbsorbAll(s.depot, pl).q, Status(true, bad, false));
  }

  /** What is announced when the payloads `pl` of an unfinished frame, numbered up to `c - 1`, are followed by
      the whole next frame `next` after `lost` missing packets, with the same timestamp or another one. */
  function Announcements(seen: bool, pl: seq<seq<octet>>, next: seq<seq<octet>>, sameTs: bool,
                         c: nat, lost: nat): seq<Frame>
    requires next != []
  {
    var stump, bad := AbsorbAll(Depot([], None), pl), seen && lost % 65536 != 0;
    if sameTs || stump.q == [] || stump.fu.Some? then [Frame(AbsorbAll(stump, next).q, Status(true, bad, false))]
    else if |next| == 1 then
      [Frame(stump.q + Absorb(Depot([], None), next[0]).q, Status(true, bad, false))]
    else
      [Frame(stump.q, Status(true, lost % 65536 != 0 || c % 65536 == 0, false)),
       Frame(AbsorbAll(Depot([], None), next).q, Status(true, bad, false))]
  }

  lemma LateIff(s: Assembler, c: nat, lost: nat)
    requires s.initialized ==> (s.refCSeq + 1) % 65536 == c % 65536
    ensures Late(s, c + lost) <==> s.initialized && lost % 65536 != 0
  {
    SameModulo(c, lost);
  }

  /** The unreduced comparison: the number after 65535 never matches. */
  lemma StumpFlag(c: nat, lost: nat)
    requires c >= 1
    ensures (c + lost) % 65536 != (c - 1) % 65536 + 1 <==> lost % 65536 != 0 || c % 65536 == 0
  {
    SameModulo(c, lost);
    Successor(c - 1);
  }

  /** For every unfinished frame, every number of packets lost after it and every next frame: with the
      same timestamp, a fragment pending, or nothing stored, the next frame takes in what was stored;
      otherwise the stored NAL units are announced on their own, or together with a next frame of a single
      packet. The next frame is reported corrupted, although complete, unless the number lost is a
      multiple of 2^16. */
  lemma UnfinishedFrame(s: Assembler, pl: seq<seq<octet>>, ts: nat, next: seq<seq<octet>>, nextTs: nat, cseq: nat,
                        lost: nat)
    returns (s': Assembler)
    requires Ready(s, cseq) && next != []
    ensures var c := cseq + |pl|;
            Delivers(s, Stamped(pl, ts, cseq, false) + Stamped(next, nextTs, c + lost, true), s',
                     Announcements(s.initialized || pl != [], pl, next, ts == nextTs, c, lost))
  {
    var c, s1 := cseq + |pl|, Pushed(s, pl, ts, cseq);
    PushedDelivered(s, pl, ts, cseq);
    s' := AfterStump(s1, next, nextTs, c + lost);
    SameAnnouncements(s, pl, ts, next, nextTs, cseq, lost);
    FrontSilent(s, Stamped(pl, ts, cseq, false), s1, Stamped(next, nextTs, c + lost, true), s',
                Announcements(s.initialized || pl != [], pl, next, ts == nextTs, c, lost));
  }

  lemma FrontSilent(s: Assembler, a: seq<Packet>, s1: Assembler, b: seq<Packet>, s2: Assembler, frames: seq<Frame>)
    requires Delivers(s, a, s1, []) && Delivers(s1, b, s2, frames)
    ensures Delivers(s, a + b, s2, frames)
  {
    var none: seq<Frame> := [];
    DeliversBoth(s, a, s1, none, b, s2, frames);
    assert none + frames == frames;
  }

  /** What the next frame announces in state `s`. */
  function FromState(s: Assembler, next: seq<seq<octet>>, ts: nat, c: nat): seq<Frame>
    requires next != []
  {
    var status := Status(true, Late(s, c), false);
    if Keeps(s, ts) then [Frame(AbsorbAll(s.depot, next).q, status)]
    else if |next| == 1 then [Frame(s.depot.q + Absorb(Depot([], None), next[0]).q, status)]
    else
      [Frame(s.depot.q, Status(true, c % 65536 != s.refCSeq + 1, false)),
       Frame(AbsorbAll(Depot([], None), next).q, status)]
  }

  lemma SameAnnouncements(s: Assembler, pl: seq<seq<octet>>, ts: nat, next: seq<seq<octet>>, nextTs: nat, cseq: nat,
                          lost: nat)
    requires Ready(s, cseq) && next != []
    ensures var c := cseq + |pl|;
            FromState(Pushed(s, pl, ts, cseq), next, nextTs, c + lost)
            == Announcements(s.initialized || pl != [], pl, next, ts == nextTs, c, lost)
  {
    var c, s1 := cseq + |pl|, Pushed(s, pl, ts, cseq);
    if pl != [] {
      Successor(c - 1);
      StumpFlag(c, lost);
    }
    LateIff(s1, c, lost);
  }

  lemma AfterStump(s: Assembler, next: seq<seq<octet>>, ts: nat, c: nat) returns (s': Assembler)
    requires s.status == NO_STATUS && next != []
    ensures Delivers(s, Stamped(next, ts, c, true), s', FromState(s, next, ts, c))
  {
    if Keeps(s, ts) {
      s' := NextFrameKept(s, next, ts, c);
    } else if |next| == 1 {
      assert next == [next[0]];
      s' := NextFrameMerged(s, next[0], ts, c);
    } else {
      s' := NextFrameApart(s, next, ts, c);
    }
  }

  /* ---- consequences ---- */

  lemma {:induction false} AbsorbKeeps(d: Depot, pl: seq<seq<octet>>)
    ensures d.q <= AbsorbAll(d, pl).q
    decreases |pl|
  {
    if pl != [] {
      AbsorbKeeps(Absorb(d, pl[0]), pl[1..]);
      assert d.q <= Absorb(d, pl[0]).q;
    }
  }

  lemma {:induction false} StampedPrefix(pl: seq<seq<octet>>, ts: nat, c: nat, i: nat)
    requires i < |pl|
    ensures Stamped(pl, ts, c, true)[..i] == Stamped(pl[..i], ts, c, false)
  {
    assert pl == pl[..i] + pl[i..];
    StampedAppend(pl[..i], pl[i..], ts, c, true);
  }

  /** Losing the packets of a frame from `i` on, its last one included, when the next frame arrives whole
      and faithful. If it has another timestamp, NAL units had been completed and no fragment was pending,
      a next frame of several packets comes out unchanged behind the stump; in every other case its NAL
      units come out mixed with what was stored. It is reported corrupted unless the number lost is a
      multiple of 2^16 or nothing had been seen. */
  lemma TailLossReported(s: Assembler, pl: seq<seq<octet>>, ts: nat, cseq: nat, i: nat, nalus: seq<Nalu>, c: Config,
                         nextTs: nat)
    returns (s': Assembler, frames: seq<Frame>)
    requires Ready(s, cseq) && i < |pl| && nalus != [] && AllFaithful(Plan(nalus, c))
    ensures Delivers(s, Stamped(pl, ts, cseq, true)[..i] + Packed(nalus, c, nextTs, cseq + |pl|), s', frames)
    ensures var stump := AbsorbAll(Depot([], None), pl[..i]);
            var bad := Status(true, (s.initialized || i > 0) && (|pl| - i) % 65536 != 0, false);
            if ts == nextTs || stump.q == [] || stump.fu.Some? then
              |frames| == 1 && stump.q <= frames[0].nalus && frames[0].status == bad
              && (stump == Depot([], None) ==> frames[0].nalus == nalus)
            else if |WireAll(Plan(nalus, c), c.maxSize)| == 1 then frames == [Frame(stump.q + nalus, bad)]
            else
              && |frames| == 2 && frames[0].nalus == stump.q && frames[1] == Frame(nalus, bad)
              && (frames[0].status.frameCorrupted <==> (|pl| - i) % 65536 != 0 || (cseq + i) % 65536 == 0)
  {
    var next := WireAll(Plan(nalus, c), c.maxSize);
    PlanSendsSomething(nalus, c);
    PayloadsRoundTrip(nalus, c);
    StampedPrefix(pl, ts, cseq, i);
    s' := UnfinishedFrame(s, pl[..i], ts, next, nextTs, cseq, |pl| - i);
    frames := Announcements(s.initialized || i > 0, pl[..i], next, ts == nextTs, cseq + i, |pl| - i);
    AbsorbKeeps(AbsorbAll(Depot([], None), pl[..i]), next);
    if |next| == 1 {
      AbsorbCons(Depot([], None), next[0], []);
      assert next == [next[0]] + [];
    }
  }

  /** A whole frame sent without marker from an unpacker in step, followed without loss by a frame of
      several packets: both are announced, and the first is reported corrupted exactly when the sequence
      number wraps right behind it, although nothing is missing. */
  lemma MarkerlessFrame(s: Assembler, pl: seq<seq<octet>>, ts: nat, next: seq<seq<octet>>, nextTs: nat, cseq: nat)
    returns (s': Assembler)
    requires Ready(s, cseq) && |next| >= 2 && ts != nextTs
    requires AbsorbAll(Depot([], None), pl).q != [] && AbsorbAll(Depot([], None), pl).fu.None?
    ensures Delivers(s, Stamped(pl, ts, cseq, false) + Stamped(next, nextTs, cseq + |pl|, true), s',
                     [Frame(AbsorbAll(Depot([], None), pl).q, Status(true, (cseq + |pl|) % 65536 == 0, false)),
                      Frame(AbsorbAll(Depot([], None), next).q, Status(true, false, false))])
  {
    s' := UnfinishedFrame(s, pl, ts, next, nextTs, cseq, 0);
  }
}
