/**
 Whole runs of the unpacker over RTP packets: frames come back one by one, losses are reported, and
 sequence numbers wrap around at 2^16.
 */
module NalDelivery {
  import opened Bytes
  import opened NalPacking
  import opened NalUnpacking
  import opened NalRoundTrip

  datatype Frame = Frame(nalus: seq<seq<octet>>, status: Status)

  datatype Delivery = Delivery(state: Assembler, frames: seq<Frame>)

  /** Feeds the packets one by one and collects a frame from each call that announces one. */
  function Deliver(s: Assembler, ps: seq<Packet>): Delivery
    decreases |ps|
  {
    if ps == [] then Delivery(s, [])
    else
      var o := Step(s, ps[0]);
      var rest := Deliver(o.state, ps[1..]);
      Delivery(rest.state, (if o.ret.frameAvailable then [Frame(o.out, o.ret)] else []) + rest.frames)
  }

  lemma {:induction false} DeliverAppend(s: Assembler, a: seq<Packet>, b: seq<Packet>)
    ensures var first := Deliver(s, a); var second := Deliver(first.state, b);
            Deliver(s, a + b) == Delivery(second.state, first.frames + second.frames)
    decreases |a|
  {
    if a == [] {
      assert a + b == b;
    } else {
      assert (a + b)[1..] == a[1..] + b;
      var o := Step(s, a[0]);
      DeliverAppend(o.state, a[1..], b);
      var rest := Deliver(o.state, a[1..]);
      Assoc(if o.ret.frameAvailable then [Frame(o.out, o.ret)] else [], rest.frames, Deliver(rest.state, b).frames);
    }
  }

  /** Feeding `ps` to `s` leads to `s'` and announces `frames`. */
  ghost predicate Delivers(s: Assembler, ps: seq<Packet>, s': Assembler, frames: seq<Frame>)
  {
    Deliver(s, ps) == Delivery(s', frames)
  }

  lemma DeliverSnoc(s: Assembler, a: seq<Packet>, p: Packet, s': Assembler, frames: seq<Frame>)
    requires Delivers(s, a, s', frames)
    ensures Delivers(s, a + [p], Step(s', p).state, frames + Announced(Step(s', p).out, Step(s', p).ret))
  {
    DeliverAppend(s, a, [p]);
    DeliverOne(s', p, Step(s', p));
  }

  function Announced(out: seq<seq<octet>>, ret: Status): seq<Frame>
  {
    if ret.frameAvailable then [Frame(out, ret)] else []
  }

  lemma DeliverOne(s: Assembler, p: Packet, o: Outcome)
    requires o == Step(s, p)
    ensures Deliver(s, [p]) == Delivery(o.state, Announced(o.out, o.ret))
  {
    assert [p][1..] == [];
  }

  lemma DeliversBoth(s: Assembler, a: seq<Packet>, s1: Assembler, f1: seq<Frame>, b: seq<Packet>, s2: Assembler,
                     f2: seq<Frame>)
    requires Delivers(s, a, s1, f1) && Delivers(s1, b, s2, f2)
    ensures Delivers(s, a + b, s2, f1 + f2)
  {
    DeliverAppend(s, a, b);
  }

  /** The packets of one frame: one timestamp, and the marker on the last packet only. */
  predicate OneFrame(ps: seq<Packet>, ts: nat)
  {
    ps != [] && forall i :: 0 <= i < |ps| ==> ps[i].timestamp == ts && (ps[i].marker <==> i == |ps| - 1)
  }

  function Payloads(ps: seq<Packet>): (r: seq<seq<octet>>)
  {
    if ps == [] then [] else [ps[0].payload] + Payloads(ps[1..])
  }

  /** Some packet does not carry the successor, modulo 2^16, of the sequence number before it. */
  predicate Gap(initialized: bool, ref: nat, ps: seq<Packet>)
    decreases |ps|
  {
    ps != [] && ((initialized && (ref + 1) % 65536 != ps[0].cseq) || Gap(true, ps[0].cseq, ps[1..]))
  }

  /** A packet with timestamp `ts` does not push a stored frame out. */
  predicate Keeps(s: Assembler, ts: nat)
  {
    s.depot.q == [] || s.lastTs == ts || s.depot.fu.Some?
  }

  lemma {:induction false} PushPacket(s: Assembler, p: Packet)
    requires Keeps(s, p.timestamp)
    requires !s.status.isKeyFrame && !p.marker
    ensures var bad := s.status.frameCorrupted || (s.initialized && (s.refCSeq + 1) % 65536 != p.cseq);
            Step(s, p) == Outcome(
              s.(depot := Absorb(s.depot, p.payload), lastTs := p.timestamp, initialized := true, refCSeq := p.cseq,
                 status := s.status.(frameCorrupted := bad)), [], NO_STATUS)
  {
  }

  /** Any run of packets that forms one frame yields exactly one frame, on its last packet. The frame is
      reported corrupted exactly when a sequence number was out of turn (or corruption was pending). */
  lemma {:induction false} FrameDelivered(s: Assembler, ps: seq<Packet>, ts: nat)
    requires OneFrame(ps, ts)
    requires Keeps(s, ts)
    requires !s.status.isKeyFrame && !s.status.frameAvailable
    ensures var run, d := Deliver(s, ps), AbsorbAll(s.depot, Payloads(ps));
            && run.frames == [Frame(d.q,
                                    Status(true, s.status.frameCorrupted || Gap(s.initialized, s.refCSeq, ps), false))]
            && run.state == s.(depot := Depot([], d.fu), status := NO_STATUS, lastTs := ts, initialized := true,
                               refCSeq := ps[|ps| - 1].cseq)
    decreases |ps|
  {
    var p := ps[0];
    AbsorbCons(s.depot, p.payload, Payloads(ps[1..]));
    if |ps| == 1 {
      assert ps[1..] == [] && Payloads(ps) == [p.payload];
      LastPacket(s, p);
      var d := Absorb(s.depot, p.payload);
      assert [Frame(d.q, Step(s, p).ret)] + [] == [Frame(d.q, Step(s, p).ret)];
    } else {
      assert ps[0].timestamp == ts && !ps[0].marker;
      PushPacket(s, p);
      assert OneFrame(ps[1..], ts) by {
        assert forall i :: 0 <= i < |ps[1..]| ==> ps[1..][i] == ps[i + 1];
      }
      FrameDelivered(Step(s, p).state, ps[1..], ts);
      assert ps[1..][|ps| - 2] == ps[|ps| - 1];
    }
  }

  lemma LastPacket(s: Assembler, p: Packet)
    requires Keeps(s, p.timestamp)
    requires !s.status.isKeyFrame && !s.status.frameAvailable && p.marker
    ensures var d := Absorb(s.depot, p.payload);
            var bad := s.status.frameCorrupted || (s.initialized && (s.refCSeq + 1) % 65536 != p.cseq);
            Step(s, p) == Outcome(
              s.(depot := Depot([], d.fu), status := NO_STATUS, lastTs := p.timestamp, initialized := true,
                 refCSeq := p.cseq),
              d.q, Status(true, bad, false))
  {
    var d := Absorb(s.depot, p.payload);
    assert [] + ([] + d.q) == d.q;
  }

  /* ---- what the packer sends is one gapless frame ---- */

  lemma {:induction false} StampedFrame(pl: seq<seq<octet>>, ts: nat, cseq: nat)
    requires pl != []
    ensures OneFrame(Stamped(pl, ts, cseq, true), ts)
    ensures Payloads(Stamped(pl, ts, cseq, true)) == pl
  {
    var ps, tail := Stamped(pl, ts, cseq, true), Stamped(pl[1..], ts, cseq + 1, true);
    if |pl| == 1 {
      assert pl[1..] == [] && tail == [] && pl == [pl[0]];
    } else {
      StampedFrame(pl[1..], ts, cseq + 1);
      assert ps[1..] == tail;
      assert forall i :: 0 < i < |ps| ==> ps[i] == tail[i - 1];
    }
  }

  lemma {:induction false} StampedNumbers(pl: seq<seq<octet>>, ts: nat, cseq: nat, marker: bool)
    ensures forall i :: 0 <= i < |pl| ==> Stamped(pl, ts, cseq, marker)[i].cseq == (cseq + i) % 65536
  {
    if pl != [] {
      StampedNumbers(pl[1..], ts, cseq + 1, marker);
      var tail := Stamped(pl[1..], ts, cseq + 1, marker);
      forall i | 0 < i < |pl|
        ensures Stamped(pl, ts, cseq, marker)[i].cseq == (cseq + i) % 65536
      {
        assert Stamped(pl, ts, cseq, marker)[i] == tail[i - 1];
      }
    }
  }

  /** A run of packets has no gap exactly when each sequence number follows the one before. */
  lemma {:induction false} GapIff(initialized: bool, ref: nat, ps: seq<Packet>)
    ensures !Gap(initialized, ref, ps) <==>
            && (ps != [] && initialized ==> (ref + 1) % 65536 == ps[0].cseq)
            && forall i {:trigger ps[i]} :: 1 <= i < |ps| ==> (ps[i - 1].cseq + 1) % 65536 == ps[i].cseq
    decreases |ps|
  {
    if ps != [] {
      var tail := ps[1..];
      GapIff(true, ps[0].cseq, tail);
      assert forall i :: 0 <= i < |tail| ==> tail[i] == ps[i + 1];
      if !Gap(initialized, ref, ps) {
        forall i | 1 <= i < |ps|
          ensures (ps[i - 1].cseq + 1) % 65536 == ps[i].cseq
        {
          if i >= 2 {
            assert tail[i - 1] == ps[i] && tail[i - 2] == ps[i - 1];
          }
        }
      }
    }
  }

  /** An unpacker between frames that expects `cseq` next (a new one expects anything). */
  predicate Ready(s: Assembler, cseq: nat)
  {
    s.depot == Depot([], None) && s.status == NO_STATUS && (s.initialized ==> (s.refCSeq + 1) % 65536 == cseq % 65536)
  }

  lemma StampedNoGap(s: Assembler, pl: seq<seq<octet>>, ts: nat, cseq: nat)
    requires Ready(s, cseq)
    ensures !Gap(s.initialized, s.refCSeq, Stamped(pl, ts, cseq, true))
  {
    var ps := Stamped(pl, ts, cseq, true);
    StampedNumbers(pl, ts, cseq, true);
    GapIff(s.initialized, s.refCSeq, ps);
    forall i | 1 <= i < |ps|
      ensures (ps[i - 1].cseq + 1) % 65536 == ps[i].cseq
    {
      Successor(cseq + i - 1);
    }
  }

  lemma Successor(c: nat)
    ensures (c % 65536 + 1) % 65536 == (c + 1) % 65536
  {
  }

  /* ---- main theorems ---- */

  lemma PlanSendsSomething(nalus: seq<Nalu>, c: Config)
    requires nalus != []
    ensures WireAll(Plan(nalus, c), c.maxSize) != []
  {
    PlanConserves(nalus, c);
    WireNonEmpty(Plan(nalus, c)[0], c.maxSize);
  }

  /** Feeding `ps` to `s` yields the single frame `nalus`, uncorrupted, and leads to `s'`. */
  ghost predicate Yields(s: Assembler, ps: seq<Packet>, nalus: seq<seq<octet>>, s': Assembler)
  {
    Deliver(s, ps) == Delivery(s', [Frame(nalus, Status(true, false, false))])
  }

  lemma GaplessFrame(s: Assembler, ps: seq<Packet>, ts: nat, d: Depot, s': Assembler)
    requires OneFrame(ps, ts) && !Gap(s.initialized, s.refCSeq, ps)
    requires s.depot == Depot([], None) && s.status == NO_STATUS
    requires d == AbsorbAll(Depot([], None), Payloads(ps))
    requires s' == s.(depot := Depot([], d.fu), lastTs := ts, initialized := true, refCSeq := ps[|ps| - 1].cseq)
    ensures Yields(s, ps, d.q, s')
  {
    FrameDelivered(s, ps, ts);
  }

  lemma PayloadsDelivered(s: Assembler, pl: seq<seq<octet>>, ts: nat, cseq: nat, ps: seq<Packet>)
    returns (s': Assembler)
    requires pl != [] && Ready(s, cseq) && ps == Stamped(pl, ts, cseq, true)
    ensures Yields(s, ps, AbsorbAll(Depot([], None), pl).q, s')
    ensures AbsorbAll(Depot([], None), pl).fu == None ==> Ready(s', cseq + |ps|)
    ensures s'.sps == s.sps && s'.pps == s.pps
  {
    StampedFrame(pl, ts, cseq);
    StampedNoGap(s, pl, ts, cseq);
    LastNumber(pl, ts, cseq);
    var d := AbsorbAll(Depot([], None), pl);
    s' := s.(depot := Depot([], d.fu), lastTs := ts, initialized := true, refCSeq := ps[|ps| - 1].cseq);
    GaplessFrame(s, ps, ts, d, s');
  }

  lemma LastNumber(pl: seq<seq<octet>>, ts: nat, cseq: nat)
    requires pl != []
    ensures var ps := Stamped(pl, ts, cseq, true); (ps[|ps| - 1].cseq + 1) % 65536 == (cseq + |ps|) % 65536
  {
    StampedNumbers(pl, ts, cseq, true);
    Successor(cseq + |pl| - 1);
  }

  /** For every non-empty NAL unit sequence, configuration, timestamp and sequence number: the unpacker
      announces exactly one frame, uncorrupted, and its NAL units are the packed ones if and only if
      every planned group is faithful. The unpacker is then ready for the packer's next call. */
  lemma FrameRoundTrip(s: Assembler, nalus: seq<Nalu>, c: Config, ts: nat, cseq: nat)
    returns (got: seq<seq<octet>>, s': Assembler)
    requires nalus != [] && Ready(s, cseq)
    ensures Yields(s, Packed(nalus, c, ts, cseq), got, s')
    ensures got == nalus <==> AllFaithful(Plan(nalus, c))
    ensures got == nalus ==> Ready(s', cseq + |Packed(nalus, c, ts, cseq)|)
    ensures s'.sps == s.sps && s'.pps == s.pps
  {
    var pl := WireAll(Plan(nalus, c), c.maxSize);
    PlanSendsSomething(nalus, c);
    s' := PayloadsDelivered(s, pl, ts, cseq, Packed(nalus, c, ts, cseq));
    got := AbsorbAll(Depot([], None), pl).q;
    PayloadsRoundTrip(nalus, c);
  }

  /** The packets of successive calls of one packer, one frame per call. */
  function PackedStream(frames: seq<(seq<Nalu>, nat)>, c: Config, cseq: nat): seq<Packet>
    decreases |frames|
  {
    if frames == [] then []
    else
      var ps := Packed(frames[0].0, c, frames[0].1, cseq);
      ps + PackedStream(frames[1..], c, cseq + |ps|)
  }

  function Clean(frames: seq<(seq<Nalu>, nat)>): seq<Frame>
  {
    if frames == [] then [] else [Frame(frames[0].0, Status(true, false, false))] + Clean(frames[1..])
  }

  predicate AllFramesFaithful(frames: seq<(seq<Nalu>, nat)>, c: Config)
  {
    forall f :: f in frames ==> AllFaithful(Plan(f.0, c))
  }

  lemma ConsFaithful(frames: seq<(seq<Nalu>, nat)>, c: Config)
    requires frames != []
    ensures AllFramesFaithful(frames, c) <==>
            AllFaithful(Plan(frames[0].0, c)) && AllFramesFaithful(frames[1..], c)
  {
    assert forall f :: f in frames <==> f == frames[0] || f in frames[1..];
  }

  lemma SameFrames(f: Frame, more: seq<Frame>, g: Frame, others: seq<Frame>)
    ensures [f] + more == [g] + others <==> f == g && more == others
  {
    if [f] + more == [g] + others {
      assert ([f] + more)[0] == f && ([g] + others)[0] == g;
      assert ([f] + more)[1..] == more && ([g] + others)[1..] == others;
    }
  }

  /** Feeding `ps` to `s` yields exactly `frames` if and only if `ok`. */
  ghost predicate YieldsIff(s: Assembler, ps: seq<Packet>, frames: seq<Frame>, ok: bool)
  {
    Deliver(s, ps).frames == frames <==> ok
  }

  /** The first frame of a stream, whatever follows it. */
  lemma FirstFrame(s: Assembler, all: seq<Packet>, ps: seq<Packet>, got: seq<seq<octet>>, s': Assembler,
                   rest: seq<Packet>, f: Frame, frames: seq<Frame>, others: seq<Frame>, ok: bool, allOk: bool)
    requires all == ps + rest && frames == [f] + others && f.status == Status(true, false, false)
    requires allOk <==> got == f.nalus && ok
    requires Yields(s, ps, got, s') && (got == f.nalus ==> YieldsIff(s', rest, others, ok))
    ensures YieldsIff(s, all, frames, allOk)
  {
    DeliverAppend(s, ps, rest);
    SameFrames(Frame(got, f.status), Deliver(s', rest).frames, f, others);
  }

  predicate NoneEmpty(frames: seq<(seq<Nalu>, nat)>)
  {
    forall f :: f in frames ==> f.0 != []
  }

  /** One frame and then the rest of the stream, given what the rest yields from where the first frame ends. */
  lemma StreamCons(s: Assembler, frames: seq<(seq<Nalu>, nat)>, c: Config, cseq: nat, ps: seq<Packet>,
                   got: seq<seq<octet>>, s': Assembler)
    requires frames != [] && ps == Packed(frames[0].0, c, frames[0].1, cseq)
    requires Yields(s, ps, got, s')
    requires got == frames[0].0 <==> AllFaithful(Plan(frames[0].0, c))
    requires got == frames[0].0 ==>
               YieldsIff(s', PackedStream(frames[1..], c, cseq + |ps|), Clean(frames[1..]),
                         AllFramesFaithful(frames[1..], c))
    ensures YieldsIff(s, PackedStream(frames, c, cseq), Clean(frames), AllFramesFaithful(frames, c))
  {
    ConsFaithful(frames, c);
    FirstFrame(s, PackedStream(frames, c, cseq), ps, got, s', PackedStream(frames[1..], c, cseq + |ps|),
               Frame(frames[0].0, Status(true, false, false)), Clean(frames), Clean(frames[1..]),
               AllFramesFaithful(frames[1..], c), AllFramesFaithful(frames, c));
  }

  lemma {:induction false} StreamYields(s: Assembler, frames: seq<(seq<Nalu>, nat)>, c: Config, cseq: nat)
    requires Ready(s, cseq) && NoneEmpty(frames)
    ensures YieldsIff(s, PackedStream(frames, c, cseq), Clean(frames), AllFramesFaithful(frames, c))
    decreases |frames|
  {
    if frames != [] {
      var f, rest := frames[0], frames[1..];
      assert NoneEmpty(rest) && f.0 != [];
      var got, s' := FrameRoundTrip(s, f.0, c, f.1, cseq);
      var ps := Packed(f.0, c, f.1, cseq);
      if got == f.0 {
        StreamYields(s', rest, c, cseq + |ps|);
      }
      StreamCons(s, frames, c, cseq, ps, got, s');
    }
  }

  /** Any number of frames, across any number of sequence number wrap-arounds: the unpacker delivers
      exactly those frames, in order, none reported corrupted, if and only if every frame is faithful. */
  lemma StreamRoundTrip(s: Assembler, frames: seq<(seq<Nalu>, nat)>, c: Config, cseq: nat)
    requires Ready(s, cseq) && NoneEmpty(frames)
    ensures Deliver(s, PackedStream(frames, c, cseq)).frames == Clean(frames) <==> AllFramesFaithful(frames, c)
  {
    StreamYields(s, frames, c, cseq);
  }

  /** No run ever marks a frame as a key frame, so parameter sets given out of band are kept for ever
      and never prepended to a frame. */
  lemma {:induction false} OutOfBandSetsUnused(s: Assembler, ps: seq<Packet>)
    requires !s.status.isKeyFrame
    ensures var run := Deliver(s, ps);
            && !run.state.status.isKeyFrame
            && run.state.sps == s.sps && run.state.pps == s.pps
            && forall f :: f in run.frames ==> !f.status.isKeyFrame
    decreases |ps|
  {
    if ps != [] {
      NoKeyFrame(s, ps[0]);
      OutOfBandSetsUnused(Step(s, ps[0]).state, ps[1..]);
    }
  }

  lemma NoKeyFrame(s: Assembler, p: Packet)
    requires !s.status.isKeyFrame
    ensures var o := Step(s, p);
            && !o.state.status.isKeyFrame && !o.ret.isKeyFrame
            && o.state.sps == s.sps && o.state.pps == s.pps
  {
  }

  /* ---- packer and unpacker together ---- */

  predicate AllReadable(pl: seq<seq<octet>>)
  {
    forall p :: p in pl ==> Readable(p)
  }

  method ReceiveOne(u: H264NalUnpacker, p: Packet, ghost s0: Assembler, ghost a: seq<Packet>, frames: seq<Frame>)
    returns (frames': seq<Frame>, overread: bool)
    requires u.apQueue == [] && Delivers(s0, a, u.State(), frames)
    modifies u
    ensures u.apQueue == [] && (overread <==> !Readable(p.payload))
    ensures !overread ==> Delivers(s0, a + [p], u.State(), frames')
  {
    DeliverSnoc(s0, a, p, u.State(), frames);
    ghost var expected := Step(u.State(), p).out;
    var out, ret;
    out, ret, overread := u.Unpack(p, []);
    assert [] + expected == expected;
    frames' := frames + Announced(out, ret);
  }

  /** Every packet goes through the unpacker with an empty output queue, up to one that makes it read behind
      the end of a payload. */
  method Receive(u: H264NalUnpacker, ps: seq<Packet>) returns (frames: seq<Frame>, overread: bool)
    requires u.apQueue == []
    modifies u
    ensures u.apQueue == [] && (overread <==> exists p :: p in ps && !Readable(p.payload))
    ensures !overread ==> Delivers(old(u.State()), ps, u.State(), frames)
  {
    frames, overread := [], false;
    ghost var s0 := u.State();
    for i := 0 to |ps|
      invariant u.apQueue == [] && !overread && Delivers(s0, ps[..i], u.State(), frames)
      invariant forall k :: 0 <= k < i ==> Readable(ps[k].payload)
    {
      frames, overread := ReceiveOne(u, ps[i], s0, ps[..i], frames);
      if overread {
        return;
      }
      assert ps[..i + 1] == ps[..i] + [ps[i]];
    }
    assert ps[..|ps|] == ps;
  }

  /** A group whose payload the unpacker reads past: a NAL unit sent on its own that it takes for a fragment
      without its second header byte or for an aggregate whose scan leaves one byte, or an aggregate whose
      scan does. */
  predicate Unsendable(g: Group)
  {
    match g
    case Single(n) => !Readable(n)
    case Stap(ns) => |ns| >= 2 && !StapReadable(StapBytes(ns)[1..])
    case Frag(_) => false
  }

  ghost predicate AllSendable(gs: seq<Group>)
  {
    forall g :: g in gs ==> !Unsendable(g)
  }

  lemma {:induction false} FuTailReadable(rest: seq<octet>, ind: octet, start: bool, t: octet, chunk: nat)
    requires chunk >= 1 && t < 32 && ind & 0x1f == FU_A
    ensures AllReadable(FuTail(rest, ind, start, t, chunk))
    decreases |rest|
  {
    if |rest| > chunk {
      FuTailReadable(rest[chunk..], ind, false, t, chunk);
    }
  }

  lemma GroupReadable(g: Group, maxSize: Limit)
    requires WellPlanned(g, maxSize)
    ensures AllReadable(Wire(g, maxSize)) <==> !Unsendable(g)
  {
    match g
    case Single(n) => assert n in Wire(g, maxSize);
    case Stap(ns) =>
      StapIsStap(ns);
      assert StapBytes(ns) in Wire(g, maxSize);
    case Frag(n) => FuTailReadable(n, NalHeader(Nri(n), FU_A), true, NalType(n), maxSize - 2);
  }

  lemma {:induction false} GroupsReadable(gs: seq<Group>, maxSize: Limit)
    requires AllWellPlanned(gs, maxSize)
    ensures AllReadable(WireAll(gs, maxSize)) <==> AllSendable(gs)
  {
    if gs != [] {
      assert gs[0] in gs;
      GroupReadable(gs[0], maxSize);
      GroupsReadable(gs[1..], maxSize);
      BothReadable(Wire(gs[0], maxSize), WireAll(gs[1..], maxSize));
      assert forall g :: g in gs <==> g == gs[0] || g in gs[1..];
    }
  }

  lemma BothReadable(a: seq<seq<octet>>, b: seq<seq<octet>>)
    ensures AllReadable(a + b) <==> AllReadable(a) && AllReadable(b)
  {
    assert forall p :: p in a + b <==> p in a || p in b;
  }

  ghost predicate PacketsReadable(ps: seq<Packet>)
  {
    forall p :: p in ps ==> Readable(p.payload)
  }

  lemma {:induction false} StampedReadable(pl: seq<seq<octet>>, ts: nat, cseq: nat, marker: bool)
    ensures PacketsReadable(Stamped(pl, ts, cseq, marker)) <==> AllReadable(pl)
  {
    if pl != [] {
      StampedReadable(pl[1..], ts, cseq + 1, marker);
      var p, rest := Packet(pl[0], ts, marker && |pl| == 1, cseq % 65536), Stamped(pl[1..], ts, cseq + 1, marker);
      assert forall x :: x in [p] + rest <==> x == p || x in rest;
      assert forall x :: x in pl <==> x == pl[0] || x in pl[1..];
    }
  }

  lemma PackedReadable(nalus: seq<Nalu>, c: Config, ts: nat, cseq: nat)
    ensures PacketsReadable(Packed(nalus, c, ts, cseq)) <==> AllSendable(Plan(nalus, c))
  {
    PlanWellPlanned(nalus, c);
    GroupsReadable(Plan(nalus, c), c.maxSize);
    StampedReadable(WireAll(Plan(nalus, c), c.maxSize), ts, cseq, true);
  }

  lemma SameDelivery(s: Assembler, ps: seq<Packet>, got: seq<seq<octet>>, s': Assembler, s2: Assembler,
                     frames: seq<Frame>)
    requires Yields(s, ps, got, s') && Delivers(s, ps, s2, frames)
    ensures s2 == s' && frames == [Frame(got, Status(true, false, false))]
  {
  }

  lemma {:induction false} EntriesReadable(ns: seq<Nalu>)
    requires forall n :: n in ns ==> |n| < 65536
    ensures StapReadable(Entries(ns))
  {
    if ns != [] {
      var n, rest := ns[0], ns[1..];
      assert n in ns && ns == [n] + rest;
      EntriesCons(n, rest);
      EntriesReadable(rest);
      EntryReadable(SizeField(|n|), n, Entries(rest));
    }
  }

  lemma EntryReadable(field: seq<octet>, n: Nalu, rest: seq<octet>)
    requires |n| < 65536 && field == SizeField(|n|) && StapReadable(rest)
    ensures StapReadable(field + n + rest)
  {
    var s, k := field + n + rest, BigEndian(field[0], field[1]);
    SizeFieldReads(|n|, k);
    Slices(field, n, rest);
    assert s[0] == field[0] && s[1] == field[1];
  }

  /** A faithful group is never read past. */
  lemma FaithfulSendable(g: Group)
    requires Faithful(g)
    ensures !Unsendable(g)
  {
    match g
    case Single(_) =>
    case Stap(ns) =>
      if |ns| >= 2 {
        EntriesReadable(ns);
        assert StapBytes(ns)[1..] == Entries(ns);
      }
    case Frag(_) =>
  }

  lemma FaithfulPlanSendable(gs: seq<Group>)
    requires AllFaithful(gs)
    ensures AllSendable(gs)
  {
    forall g | g in gs
      ensures !Unsendable(g)
    {
      FaithfulSendable(g);
    }
  }

  /** A two-byte NAL unit of type 24 sent on its own is read past. */
  lemma OverreadExample(c: Config)
    requires c.mode.SingleNalUnitMode?
    ensures !AllSendable(Plan([[24, 9]], c))
  {
    var n: Nalu := [24, 9];
    assert n[1..] == [9] && NalType(n) == STAP_A;
    assert [n][1..] == [] && PlanSingles([n]) == [Single(n)] + [];
    assert Single(n) in PlanSingles([n]);
  }

  /** One frame through the packer and then through the unpacker, whatever both did before. The unpacker reads
      behind a payload exactly when the plan holds an unsendable group, which no faithful plan does. */
  method Transfer(packer: H264NalPacker, u: H264NalUnpacker, nalus: seq<Nalu>, ts: nat)
    returns (frames: seq<Frame>, overread: bool)
    requires packer.Valid() && packer.pending == [] && packer.fuQueue == []
    requires u.apQueue == [] && Ready(u.State(), packer.count) && nalus != []
    modifies packer, u
    ensures packer.Valid() && packer.pending == [] && packer.fuQueue == [] && u.apQueue == []
    ensures overread <==> !AllSendable(Plan(nalus, packer.config))
    ensures AllFaithful(Plan(nalus, packer.config)) ==> !overread
    ensures !overread ==> |frames| == 1 && frames[0].status == Status(true, false, false)
    ensures !overread ==> (frames[0].nalus == nalus <==> AllFaithful(Plan(nalus, packer.config)))
    ensures !overread && frames[0].nalus == nalus ==> Ready(u.State(), packer.count)
  {
    PackedReadable(nalus, packer.config, ts, packer.count);
    if AllFaithful(Plan(nalus, packer.config)) {
      FaithfulPlanSendable(Plan(nalus, packer.config));
    }
    ghost var got, s' := FrameRoundTrip(u.State(), nalus, packer.config, ts, packer.count);
    ghost var s, ps := u.State(), Packed(nalus, packer.config, ts, packer.count);
    var rtpq := packer.Pack(nalus, [], ts);
    assert rtpq == ps;
    frames, overread := Receive(u, rtpq);
    if !overread {
      SameDelivery(s, ps, got, s', u.State(), frames);
    }
  }
}
