/**
 RTP payload unpacking of H.264 NAL units: the FU-A aggregator, the STAP-A splitter and the
 frame assembler driven by timestamps, marker bits and 16-bit sequence numbers.
 */
module NalUnpacking {
  import opened Bytes
  import opened NalPacking

  /** `b & 0x17`: the aggregator's mask for the NAL unit type drops bit 3. */
  function FuTypeMask(b: octet): (t: octet)
    ensures t < 32
  {
    b & 0x17
  }

  /** NAL units stored so far and the fragmented NAL unit under construction. */
  datatype Depot = Depot(q: seq<seq<octet>>, fu: Option<seq<octet>>)

  /** The header bytes that decide how a payload is taken are there. */
  predicate HasHeaders(im: seq<octet>)
  {
    |im| >= 1 && (NalType(im) == FU_A ==> |im| >= 2)
  }

  function FuFeed(d: Depot, im: seq<octet>): Depot
    requires |im| >= 2
  {
    var start, end := im[1] >> 7 == 1, (im[1] >> 6) & 0x1 == 1;
    var fu :=
      if start then Some([NalHeader(Nri(im), FuTypeMask(im[1]))] + im[2..])
      else if d.fu.Some? then Some(d.fu.value + im[2..])
      else None;
    if end && fu.Some? then Depot(d.q + [fu.value], None) else Depot(d.q, fu)
  }

  /** The entries of a STAP-A payload up to the first one that does not fit. */
  function StapEntries(s: seq<octet>): seq<seq<octet>>
    decreases |s|
  {
    if |s| < 2 then []
    else
      var size := BigEndian(s[0], s[1]);
      if |s| < 2 + size then [] else [s[2..2 + size]] + StapEntries(s[2 + size..])
  }

  /** The scan of a STAP-A payload never meets a single last byte, where it would read a size field of two. */
  predicate StapReadable(s: seq<octet>)
    decreases |s|
  {
    s == [] || (
      && |s| >= 2
      && var size := BigEndian(s[0], s[1]); |s| < 2 + size || StapReadable(s[2 + size..]))
  }

  /** A payload that the unpacker does not read past. */
  predicate Readable(im: seq<octet>)
  {
    HasHeaders(im) && (NalType(im) == STAP_A ==> StapReadable(im[1..]))
  }

  /** What the queue will be once the entries from `p` on are taken. */
  function StapRest(q: seq<seq<octet>>, im: seq<octet>, p: nat): seq<seq<octet>>
    requires p <= |im|
  {
    q + StapEntries(im[p..])
  }

  lemma StapEnd(q: seq<seq<octet>>, im: seq<octet>, p: nat)
    requires p <= |im| < p + 2
    ensures StapRest(q, im, p) == q
  {
    assert q + [] == q;
  }

  lemma StapStep(q: seq<seq<octet>>, im: seq<octet>, p: nat, size: nat)
    requires p + 2 <= |im| && size == BigEndian(im[p], im[p + 1])
    ensures p + 2 + size > |im| ==> StapRest(q, im, p) == q && StapReadable(im[p..])
    ensures p + 2 + size <= |im| ==> StapRest(q, im, p) == StapRest(q + [im[p + 2..p + 2 + size]], im, p + 2 + size)
    ensures p + 2 + size <= |im| ==> (StapReadable(im[p..]) <==> StapReadable(im[p + 2 + size..]))
  {
    var rest := im[p..];
    if p + 2 + size <= |im| {
      assert rest[2..2 + size] == im[p + 2..p + 2 + size] && rest[2 + size..] == im[p + 2 + size..];
      Assoc(q, [im[p + 2..p + 2 + size]], StapEntries(im[p + 2 + size..]));
    } else {
      assert q + [] == q;
    }
  }

  /** What one payload does to the depot. (An FU-A payload without FU header is not readable; it is
      mapped to no change only to keep the function total.) */
  function Absorb(d: Depot, im: seq<octet>): Depot
  {
    if !HasHeaders(im) then d
    else if NalType(im) == FU_A then FuFeed(d, im)
    else if NalType(im) == STAP_A then d.(q := d.q + StapEntries(im[1..]))
    else Depot(d.q + [im], None)
  }

  function AbsorbAll(d: Depot, payloads: seq<seq<octet>>): Depot
    decreases |payloads|
  {
    if payloads == [] then d else AbsorbAll(Absorb(d, payloads[0]), payloads[1..])
  }

  lemma {:induction false} AbsorbAppend(d: Depot, a: seq<seq<octet>>, b: seq<seq<octet>>)
    ensures AbsorbAll(d, a + b) == AbsorbAll(AbsorbAll(d, a), b)
    decreases |a|
  {
    if a == [] {
      assert a + b == b;
    } else {
      assert (a + b)[1..] == a[1..] + b;
      AbsorbAppend(Absorb(d, a[0]), a[1..], b);
    }
  }

  /* ---- the frame assembler ---- */

  datatype Status = Status(frameAvailable: bool, frameCorrupted: bool, isKeyFrame: bool)

  const NO_STATUS := Status(false, false, false)

  function Or(a: Status, b: Status): Status
  {
    Status(a.frameAvailable || b.frameAvailable, a.frameCorrupted || b.frameCorrupted, a.isKeyFrame || b.isKeyFrame)
  }

  datatype Assembler = Assembler(
    depot: Depot, status: Status, lastTs: nat, initialized: bool, refCSeq: nat,
    sps: Option<seq<octet>>, pps: Option<seq<octet>>)

  /** The initial timestamp is the source's arbitrary constant. */
  const FRESH := Assembler(Depot([], None), NO_STATUS, 0x943FEA43, false, 0, None, None)

  datatype Outcome = Outcome(state: Assembler, out: seq<seq<octet>>, ret: Status)

  function FrameOutcome(s: Assembler, flags: Status): Outcome
  {
    var prepend := s.status.isKeyFrame && s.sps.Some? && s.pps.Some?;
    Outcome(
      s.(depot := s.depot.(q := []), status := NO_STATUS,
         sps := if prepend then None else s.sps, pps := if prepend then None else s.pps),
      (if prepend then [s.sps.value, s.pps.value] else []) + s.depot.q,
      Or(s.status, flags))
  }

  /** A key frame comes out behind both parameter sets given out of band, which are used up. */
  lemma KeyFramePrepends(s: Assembler, flags: Status)
    requires s.status.isKeyFrame && s.sps.Some? && s.pps.Some?
    ensures var o := FrameOutcome(s, flags);
            && |o.out| == |s.depot.q| + 2 && o.out[0] == s.sps.value && o.out[1] == s.pps.value
            && o.out[2..] == s.depot.q && o.ret.isKeyFrame
            && o.state.sps == None && o.state.pps == None && o.state.status == NO_STATUS && o.state.depot.q == []
  {
  }

  /** A new timestamp pushes out a frame whose marker never came, unless a fragment is pending. The
      comparison with the expected sequence number is not reduced modulo 2^16. */
  function OnTimestamp(s: Assembler, p: Packet): Outcome
  {
    if s.lastTs == p.timestamp then Outcome(s, [], NO_STATUS)
    else if s.depot.fu.None? && s.depot.q != [] then
      FrameOutcome(s.(lastTs := p.timestamp), Status(true, p.cseq != s.refCSeq + 1, false))
    else Outcome(s.(lastTs := p.timestamp), [], NO_STATUS)
  }

  function OnSequence(s: Assembler, p: Packet): Assembler
  {
    if !s.initialized then s.(initialized := true, refCSeq := p.cseq)
    else if (s.refCSeq + 1) % 65536 == p.cseq then s.(refCSeq := p.cseq)
    else s.(refCSeq := p.cseq, status := s.status.(frameCorrupted := true))
  }

  function Step(s: Assembler, p: Packet): Outcome
  {
    var first := OnTimestamp(s, p);
    var s1 := OnSequence(first.state, p);
    var s2 := s1.(depot := Absorb(s1.depot, p.payload));
    if p.marker then
      var last := FrameOutcome(s2.(lastTs := p.timestamp), Status(true, false, false));
      Outcome(last.state, first.out + last.out, last.ret)
    else Outcome(s2, first.out, first.ret)
  }

  /** The H.264 unpacker. */
  class H264NalUnpacker {
    var q: seq<seq<octet>>
    var status: Status
    var lastTs: nat
    var initializedRefCSeq: bool
    var refCSeq: nat
    var fu: Option<seq<octet>>
    var apQueue: seq<seq<octet>>
    var sps: Option<seq<octet>>
    var pps: Option<seq<octet>>

    ghost function State(): Assembler
      reads this
    {
      Assembler(Depot(q, fu), status, lastTs, initializedRefCSeq, refCSeq, sps, pps)
    }

    constructor ()
      ensures State() == FRESH && apQueue == []
    {
      q, status, lastTs, initializedRefCSeq, refCSeq := [], NO_STATUS, 0x943FEA43, false, 0;
      fu, apQueue, sps, pps := None, [], None, None;
    }

    method SetOutOfBandSpsPps(sps: Option<seq<octet>>, pps: Option<seq<octet>>)
      modifies this`sps, this`pps
      ensures State() == old(State()).(sps := sps, pps := pps)
    {
      this.sps := sps;
      this.pps := pps;
    }

    method FuaFeed(im: seq<octet>) returns (om: Option<seq<octet>>)
      requires |im| >= 2
      modifies this`fu
      ensures Depot(if om.Some? then q + [om.value] else q, fu) == FuFeed(old(Depot(q, fu)), im)
    {
      om := None;
      var fuHeader := im[1];
      var t := FuTypeMask(fuHeader);
      var start := fuHeader >> 7 == 1;
      var end := (fuHeader >> 6) & 0x1 == 1;
      if start {
        fu := Some([NalHeader(Nri(im), t)] + im[2..]);
      } else if fu != None {
        fu := Some(fu.value + im[2..]);
      }
      if end && fu != None {
        om := fu;
        fu := None;
      }
    }

    /** The entries up to the first one that does not fit. `overread` is true where the source reads a size
        field of which only one byte is left. */
    method StapaFeed(im: seq<octet>) returns (overread: bool)
      requires |im| >= 1
      modifies this`apQueue
      ensures apQueue == old(apQueue) + StapEntries(im[1..])
      ensures overread <==> !StapReadable(im[1..])
    {
      var p := 1;
      ghost var goal := StapRest(apQueue, im, 1);
      while p < |im|
        invariant 1 <= p <= |im|
        invariant StapRest(apQueue, im, p) == goal && (StapReadable(im[p..]) <==> StapReadable(im[1..]))
        decreases |im| - p
      {
        if p + 2 > |im| {
          StapEnd(apQueue, im, p);
          return true;  // the entry is refused only after its size was read
        }
        var size := BigEndian(im[p], im[p + 1]);
        StapStep(apQueue, im, p, size);
        p := p + 2;
        var begin := p;
        p := p + size;
        if p > |im| {
          return false;
        }
        apQueue := apQueue + [im[begin..p]];
      }
      StapEnd(apQueue, im, p);
      return false;
    }

    method StoreNals()
      modifies this`q, this`apQueue
      ensures apQueue == [] && q == old(q) + old(apQueue)
    {
      while apQueue != []
        invariant q + apQueue == old(q) + old(apQueue)
        decreases |apQueue|
      {
        q := q + [apQueue[0]];
        apQueue := apQueue[1..];
      }
    }

    method OutputFrame(out: seq<seq<octet>>, flags: Status) returns (out': seq<seq<octet>>, res: Status)
      modifies this`q, this`status, this`sps, this`pps
      ensures var o := FrameOutcome(old(State()), flags);
              State() == o.state && out' == out + o.out && res == o.ret
    {
      out' := out;
      if status.isKeyFrame && sps != None && pps != None {
        out' := out' + [sps.value] + [pps.value];
        sps, pps := None, None;
      }
      res := Or(status, flags);
      assert out <= out';
      ghost var head, all := out', q;
      while q != []
        invariant out' + q == head + all
        modifies this`q
        decreases |q|
      {
        out' := out' + [q[0]];
        q := q[1..];
      }
      status := NO_STATUS;
      ghost var pre := head[|out|..];
      Assoc(out, pre, all);
      assert out' == out' + q == head + all;
    }

    /** `overread` stands for the source reading behind the end of the payload: neither the header byte, nor
        the FU header of an FU-A payload, nor the second byte of a size field is checked for. Nothing more is
        promised then. */
    method StorePayload(im: seq<octet>) returns (overread: bool)
      requires apQueue == []
      modifies this`q, this`fu, this`apQueue
      ensures apQueue == [] && (overread <==> !Readable(im))
      ensures !overread ==> Depot(q, fu) == Absorb(old(Depot(q, fu)), im)
    {
      overread := im == [];
      if overread {
        return;
      }
      if NalType(im) == FU_A {
        if |im| < 2 {
          return true;
        }
        var o := FuaFeed(im);
        if o != None {
          q := q + [o.value];
        }
      } else if NalType(im) == STAP_A {
        ghost var entries := StapEntries(im[1..]);
        overread := StapaFeed(im);
        assert apQueue == entries;
        StoreNals();
      } else {
        fu := None;
        q := q + [im];
      }
    }

    method CheckTimestamp(im: Packet, out: seq<seq<octet>>) returns (out': seq<seq<octet>>, ret: Status)
      modifies this`q, this`status, this`sps, this`pps, this`lastTs
      ensures var o := OnTimestamp(old(State()), im); State() == o.state && out' == out + o.out && ret == o.ret
    {
      out', ret := out, NO_STATUS;
      if lastTs != im.timestamp {
        lastTs := im.timestamp;
        if fu == None && q != [] {
          out', ret := OutputFrame(out', Status(true, im.cseq != refCSeq + 1, false));
        }
      }
    }

    method CheckSequence(im: Packet)
      modifies this`status, this`initializedRefCSeq, this`refCSeq
      ensures State() == OnSequence(old(State()), im)
    {
      if !initializedRefCSeq {
        initializedRefCSeq, refCSeq := true, im.cseq;
      } else {
        refCSeq := (refCSeq + 1) % 65536;
        if refCSeq != im.cseq {
          refCSeq := im.cseq;
          status := status.(frameCorrupted := true);
        }
      }
    }

    /** One call. `overread` is true where the source reads a byte that the payload does not have. */
    method Unpack(im: Packet, out: seq<seq<octet>>) returns (out': seq<seq<octet>>, ret: Status, overread: bool)
      requires apQueue == []
      modifies this
      ensures apQueue == [] && (overread <==> !Readable(im.payload))
      ensures var o := Step(old(State()), im);
              !overread ==> State() == o.state && out' == out + o.out && ret == o.ret
    {
      if im.payload == [] {
        return out, NO_STATUS, true;
      }
      out', ret := CheckTimestamp(im, out);
      CheckSequence(im);
      overread := StorePayload(im.payload);
      if overread {
        return;
      }
      if im.marker {
        ghost var first := OnTimestamp(old(State()), im).out;
        lastTs := im.timestamp;
        ghost var last := FrameOutcome(State(), Status(true, false, false)).out;
        out', ret := OutputFrame(out', Status(true, false, false));
        Assoc(out, first, last);
      }
    }
  }
}
