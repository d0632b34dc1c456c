/**
 The packing loop shared by both codecs, run with the H.265 aggregator. Unlike the H.264 one, this
 aggregator keeps the message of a NAL unit that did not fit; the loop then feeds, sends or splits that
 same message. The model says exactly when this corrupts memory, and what is sent when it does not.
 */
module H265Packing {
  import opened Bytes
  import opened H265Packets

  /** What leaves the packer together. */
  datatype Parcel = Alone(nalu: Nalu265) | Together(nalus: seq<Nalu265>)

  function Contents(p: Parcel): seq<Nalu265>
  {
    match p
    case Alone(n) => [n]
    case Together(ns) => ns
  }

  /** The NAL units of all parcels, in order. */
  function Unpacked(ps: seq<Parcel>): seq<Nalu265>
  {
    Flatten(seq(|ps|, i requires 0 <= i < |ps| => Contents(ps[i])))
  }

  function Payloads(p: Parcel, maxSize: nat): seq<seq<octet>>
    requires maxSize >= 4
  {
    match p
    case Alone(n) => if |n| > maxSize then Fragments(n, maxSize) else [n]
    case Together(ns) => if ns == [] then [] else [ApPacket(ns)]
  }

  function AllPayloads(ps: seq<Parcel>, maxSize: nat): seq<seq<octet>>
    requires maxSize >= 4
  {
    Flatten(seq(|ps|, i requires 0 <= i < |ps| => Payloads(ps[i], maxSize)))
  }

  predicate Fits(pending: seq<Nalu265>, n: Nalu265, maxSize: nat)
  {
    pending == [] || 2 + |Body(pending)| + 2 + |n| <= maxSize
  }

  /** A NAL unit that overflows the aggregate under construction becomes the next aggregate, and its message
      is then used a second time. That is harmless in one case only: it is small, two copies of it do not
      fit a packet, so the first use is given up, and its type is not that of a packet, so giving it up does
      not free it. */
  predicate Reused(n: Nalu265, pending: seq<Nalu265>, maxSize: nat)
  {
    && !Fits(pending, n, maxSize)
    && (|n| >= maxSize / 2 || Fits([n], n, maxSize) || ParseHeader(n).typ == AP)
  }

  /** One turn of the loop: what is sent, and the aggregate under construction. */
  datatype Turn = Turn(sent: seq<Parcel>, pending: seq<Nalu265>)

  function OneTurn(n: Nalu265, pending: seq<Nalu265>, maxSize: nat): Turn
    requires !Reused(n, pending, maxSize)
  {
    if pending == [] then (if |n| < maxSize / 2 then Turn([], [n]) else Turn([Alone(n)], []))
    else if Fits(pending, n, maxSize) then Turn([], pending + [n])
    else Turn([Together(pending)], [n])
  }

  /** No turn of the loop uses a message twice; decided from sizes and types. */
  predicate NoneReused(nalus: seq<Nalu265>, pending: seq<Nalu265>, maxSize: nat)
    decreases |nalus|
  {
    nalus == [] || (
      && !Reused(nalus[0], pending, maxSize)
      && NoneReused(nalus[1..], OneTurn(nalus[0], pending, maxSize).pending, maxSize))
  }

  function Plan(nalus: seq<Nalu265>, pending: seq<Nalu265>, maxSize: nat): seq<Parcel>
    requires NoneReused(nalus, pending, maxSize)
    decreases |nalus|
  {
    if nalus == [] then (if pending == [] then [] else [Together(pending)])
    else
      var turn := OneTurn(nalus[0], pending, maxSize);
      turn.sent + Plan(nalus[1..], turn.pending, maxSize)
  }

  /* ---- the loop ---- */

  lemma AllPayloadsAppend(a: seq<Parcel>, b: seq<Parcel>, maxSize: nat)
    requires maxSize >= 4
    ensures AllPayloads(a + b, maxSize) == AllPayloads(a, maxSize) + AllPayloads(b, maxSize)
  {
    var xs := seq(|a|, i requires 0 <= i < |a| => Payloads(a[i], maxSize));
    var ys := seq(|b|, i requires 0 <= i < |b| => Payloads(b[i], maxSize));
    assert seq(|a + b|, i requires 0 <= i < |a + b| => Payloads((a + b)[i], maxSize)) == xs + ys;
    FlattenAppend(xs, ys);
  }

  lemma OneParcel(p: Parcel, maxSize: nat)
    requires maxSize >= 4
    ensures AllPayloads([p], maxSize) == Payloads(p, maxSize)
  {
    assert seq(1, i requires 0 <= i < 1 => Payloads([p][i], maxSize)) == [Payloads(p, maxSize)];
    FlattenOne(Payloads(p, maxSize));
  }

  method SendAlone(n: Nalu265, maxSize: nat) returns (payloads: seq<seq<octet>>)
    requires maxSize >= 4
    ensures payloads == AllPayloads([Alone(n)], maxSize)
  {
    OneParcel(Alone(n), maxSize);
    if |n| > maxSize {
      payloads := SplitterFeed(n, maxSize);
    } else {
      payloads := [n];
    }
  }

  /** Feeding the message that the aggregator holds already. Nothing is promised once memory is corrupted. */
  method FeedHeld(a: NaluAggregator, n: Nalu265) returns (corrupted: bool)
    requires a.Valid() && a.taken == [n]
    modifies a
    ensures corrupted <==> Fits([n], n, a.maxSize) || ParseHeader(n).typ == AP
    ensures !corrupted ==> a.Valid() && a.taken == [n]
  {
    if 2 + a.size + 2 + |n| > a.maxSize {
      if a.apHeader.typ == AP {
        return true;  // pulling the finished packet up frees the message that is placed next
      }
      var _ := a.CompleteAggregation();  // the packet is not sent
      a.PlaceFirstNalu(n);
      return false;
    }
    return true;  // the message is chained into itself
  }

  method PackOne(a: NaluAggregator, n: Nalu265) returns (payloads: seq<seq<octet>>, corrupted: bool)
    requires a.Valid() && a.maxSize >= 4
    modifies a
    ensures corrupted <==> Reused(n, old(a.taken), a.maxSize)
    ensures !corrupted ==> a.Valid() && a.taken == OneTurn(n, old(a.taken), a.maxSize).pending
    ensures !corrupted ==> payloads == AllPayloads(OneTurn(n, old(a.taken), a.maxSize).sent, a.maxSize)
  {
    payloads, corrupted := [], false;
    ghost var before := a.taken;
    if a.ap != None {
      var apPacket := a.Feed(n);
      if apPacket == None {
        return;
      }
      payloads := [apPacket.value];
      OneParcel(Together(before), a.maxSize);
      if |n| >= a.maxSize / 2 {
        return payloads, true;  // queued, or freed by the splitter, while the aggregator holds it
      }
      corrupted := FeedHeld(a, n);
    } else if |n| < a.maxSize / 2 {
      var _ := a.Feed(n);
      assert [] + [n] == [n];
    } else {
      payloads := SendAlone(n, a.maxSize);
    }
  }

  /** The whole loop with aggregation enabled, and the flush behind it: memory is corrupted if and only if a
      message is reused; otherwise exactly the planned parcels are sent, and they hold the NAL units as they
      came. */
  method PackAggregated(a: NaluAggregator, naluq: seq<Nalu265>) returns (payloads: seq<seq<octet>>, corrupted: bool)
    requires a.Valid() && a.taken == [] && a.maxSize >= 4
    modifies a
    ensures corrupted <==> !NoneReused(naluq, [], a.maxSize)
    ensures !corrupted ==> a.Valid() && a.taken == []
    ensures !corrupted ==> payloads == AllPayloads(Plan(naluq, [], a.maxSize), a.maxSize)
    ensures !corrupted ==> Unpacked(Plan(naluq, [], a.maxSize)) == naluq
  {
    payloads, corrupted := [], false;
    var q := naluq;
    ghost var clean := NoneReused(naluq, [], a.maxSize);
    ghost var goal := if clean then AllPayloads(Plan(naluq, [], a.maxSize), a.maxSize) else [];
    while q != []
      invariant a.Valid() && !corrupted && (clean <==> NoneReused(q, a.taken, a.maxSize))
      invariant clean ==> goal == payloads + AllPayloads(Plan(q, a.taken, a.maxSize), a.maxSize)
      decreases |q|
    {
      ghost var before, held := payloads, a.taken;
      var more;
      more, corrupted := PackOne(a, q[0]);
      if corrupted {
        return;
      }
      if clean {
        TurnPayloads(q, held, a.maxSize, before);
      }
      payloads := payloads + more;
      q := q[1..];
    }
    ghost var rest := a.taken;
    var last := a.CompleteAggregation();
    if last != None {
      OneParcel(Together(rest), a.maxSize);
      payloads := payloads + [last.value];
    } else {
      assert payloads + [] == payloads;
    }
    Kept(naluq, [], a.maxSize);
    assert [] + naluq == naluq;
  }

  lemma TurnPayloads(q: seq<Nalu265>, pending: seq<Nalu265>, maxSize: nat, before: seq<seq<octet>>)
    requires maxSize >= 4 && q != [] && NoneReused(q, pending, maxSize)
    ensures var turn := OneTurn(q[0], pending, maxSize);
            before + AllPayloads(Plan(q, pending, maxSize), maxSize)
            == before + AllPayloads(turn.sent, maxSize) + AllPayloads(Plan(q[1..], turn.pending, maxSize), maxSize)
  {
    var turn := OneTurn(q[0], pending, maxSize);
    var rest := Plan(q[1..], turn.pending, maxSize);
    AllPayloadsAppend(turn.sent, rest, maxSize);
    Assoc(before, AllPayloads(turn.sent, maxSize), AllPayloads(rest, maxSize));
  }

  /* ---- nothing lost, nothing oversized ---- */

  lemma UnpackedAppend(a: seq<Parcel>, b: seq<Parcel>)
    ensures Unpacked(a + b) == Unpacked(a) + Unpacked(b)
  {
    var xs := seq(|a|, i requires 0 <= i < |a| => Contents(a[i]));
    var ys := seq(|b|, i requires 0 <= i < |b| => Contents(b[i]));
    assert seq(|a + b|, i requires 0 <= i < |a + b| => Contents((a + b)[i])) == xs + ys;
    FlattenAppend(xs, ys);
  }

  lemma UnpackedOne(p: Parcel)
    ensures Unpacked([p]) == Contents(p)
  {
    assert seq(1, i requires 0 <= i < 1 => Contents([p][i])) == [Contents(p)];
    FlattenOne(Contents(p));
  }

  lemma TurnKeeps(n: Nalu265, pending: seq<Nalu265>, maxSize: nat)
    requires !Reused(n, pending, maxSize)
    ensures var turn := OneTurn(n, pending, maxSize); Unpacked(turn.sent) + turn.pending == pending + [n]
  {
    UnpackedOne(Alone(n));
    UnpackedOne(Together(pending));
    assert Unpacked([]) == [] && [] + [n] == [n] && [n] + [] == [n];
  }

  /** A clean plan neither drops, duplicates nor reorders a NAL unit. */
  lemma {:induction false} Kept(nalus: seq<Nalu265>, pending: seq<Nalu265>, maxSize: nat)
    requires NoneReused(nalus, pending, maxSize)
    ensures Unpacked(Plan(nalus, pending, maxSize)) == pending + nalus
    decreases |nalus|
  {
    if nalus == [] {
      UnpackedOne(Together(pending));
      assert pending + [] == pending;
    } else {
      var turn, rest := OneTurn(nalus[0], pending, maxSize), nalus[1..];
      TurnKeeps(nalus[0], pending, maxSize);
      UnpackedAppend(turn.sent, Plan(rest, turn.pending, maxSize));
      Kept(rest, turn.pending, maxSize);
      Assoc(Unpacked(turn.sent), turn.pending, rest);
      Assoc(pending, [nalus[0]], rest);
      assert [nalus[0]] + rest == nalus;
    }
  }

  predicate AllFit(payloads: seq<seq<octet>>, maxSize: nat)
  {
    forall p :: p in payloads ==> |p| <= maxSize
  }

  lemma {:induction false} FuRestFits(h: Header, pos: Position, rest: seq<octet>, size: nat)
    requires ValidHeader(h) && size >= 1
    ensures AllFit(FuRest(h, pos, rest, size), size + 3)
    decreases |rest|
  {
    if |rest| > size {
      FuRestFits(h, Middle, rest[size..], size);
    }
  }

  /** An aggregate under construction: a small NAL unit, or several that fit a packet. */
  predicate Bounded(pending: seq<Nalu265>, maxSize: nat)
  {
    pending == [] || (|pending| == 1 && |pending[0]| < maxSize / 2) || 2 + |Body(pending)| <= maxSize
  }

  lemma ParcelFits(p: Parcel, maxSize: nat)
    requires maxSize >= 4 && (p.Together? ==> Bounded(p.nalus, maxSize))
    ensures AllFit(AllPayloads([p], maxSize), maxSize)
  {
    OneParcel(p, maxSize);
    match p
    case Alone(n) =>
      if |n| > maxSize {
        FuRestFits(ParseHeader(n), Start, n[2..], maxSize - 3);
      }
    case Together(ns) =>
      if |ns| == 1 {
        assert ns[1..] == [] && Body(ns) == ns[0] + [] == ns[0];
      }
  }

  lemma TurnBounded(n: Nalu265, pending: seq<Nalu265>, maxSize: nat)
    requires maxSize >= 4 && Bounded(pending, maxSize) && !Reused(n, pending, maxSize)
    ensures var turn := OneTurn(n, pending, maxSize);
            Bounded(turn.pending, maxSize) && AllFit(AllPayloads(turn.sent, maxSize), maxSize)
  {
    ParcelFits(Alone(n), maxSize);
    ParcelFits(Together(pending), maxSize);
    assert AllPayloads([], maxSize) == [];
    if pending != [] && Fits(pending, n, maxSize) {
      BodySnoc(pending, n);
    }
  }

  /** No payload of a clean plan exceeds the maximum size. */
  lemma {:induction false} PayloadsFit(nalus: seq<Nalu265>, pending: seq<Nalu265>, maxSize: nat)
    requires maxSize >= 4 && Bounded(pending, maxSize) && NoneReused(nalus, pending, maxSize)
    ensures AllFit(AllPayloads(Plan(nalus, pending, maxSize), maxSize), maxSize)
    decreases |nalus|
  {
    if nalus == [] {
      ParcelFits(Together(pending), maxSize);
      assert AllPayloads([], maxSize) == [];
    } else {
      var turn := OneTurn(nalus[0], pending, maxSize);
      TurnBounded(nalus[0], pending, maxSize);
      PayloadsFit(nalus[1..], turn.pending, maxSize);
      AllPayloadsAppend(turn.sent, Plan(nalus[1..], turn.pending, maxSize), maxSize);
    }
  }

  /* ---- the grouping is greedy ---- */

  /** Small enough to open an aggregate. */
  predicate Opens(n: Nalu265, maxSize: nat)
  {
    2 * |n| + 2 <= maxSize
  }

  predicate Sound(p: Parcel, maxSize: nat)
  {
    match p
    case Alone(n) => !Opens(n, maxSize)
    case Together(ns) => ns != [] && Opens(ns[0], maxSize) && (|ns| >= 2 ==> 2 + |Body(ns)| <= maxSize)
  }

  /** An aggregate could not take the NAL unit `m` that follows it. */
  predicate Full(p: Parcel, m: Nalu265, maxSize: nat)
  {
    p.Together? && p.nalus != [] ==> 2 + |Body(p.nalus)| + 2 + |m| > maxSize
  }

  predicate StartsWith(ps: seq<Parcel>, n: Nalu265)
  {
    ps != [] && Contents(ps[0]) != [] && Contents(ps[0])[0] == n
  }

  predicate Greedy(ps: seq<Parcel>, maxSize: nat)
    decreases |ps|
  {
    ps == [] || (
      && Sound(ps[0], maxSize) && Greedy(ps[1..], maxSize)
      && (|ps| >= 2 ==> Contents(ps[1]) != [] && Full(ps[0], Contents(ps[1])[0], maxSize)))
  }

  lemma GreedyCons(p: Parcel, ps: seq<Parcel>, n: Nalu265, maxSize: nat)
    requires Sound(p, maxSize) && Greedy(ps, maxSize) && (ps != [] ==> StartsWith(ps, n) && Full(p, n, maxSize))
    ensures Greedy([p] + ps, maxSize)
  {
    assert ([p] + ps)[1..] == ps;
  }

  /** In a clean plan every small NAL unit opens or joins an aggregate, every aggregate fits a packet, and none
      could have taken the NAL unit that follows it. */
  lemma {:induction false} PlanIsGreedy(nalus: seq<Nalu265>, pending: seq<Nalu265>, maxSize: nat)
    requires NoneReused(nalus, pending, maxSize) && (pending != [] ==> Sound(Together(pending), maxSize))
    ensures var ps := Plan(nalus, pending, maxSize);
            && Greedy(ps, maxSize) && (pending == [] && nalus == [] ==> ps == [])
            && (pending != [] ==> StartsWith(ps, pending[0]))
            && (pending == [] && nalus != [] ==> StartsWith(ps, nalus[0]))
    decreases |nalus|
  {
    if nalus == [] {
      if pending != [] {
        GreedyCons(Together(pending), [], pending[0], maxSize);
        assert [Together(pending)] + [] == [Together(pending)];
      }
    } else {
      var n, rest := nalus[0], nalus[1..];
      var turn := OneTurn(n, pending, maxSize);
      TurnSound(n, pending, maxSize);
      PlanIsGreedy(rest, turn.pending, maxSize);
      var tail := Plan(rest, turn.pending, maxSize);
      if turn.sent == [] {
        assert [] + tail == tail;
      } else if pending == [] {
        GreedyCons(Alone(n), tail, if rest == [] then n else rest[0], maxSize);
      } else {
        GreedyCons(Together(pending), tail, n, maxSize);
      }
    }
  }

  lemma TurnSound(n: Nalu265, pending: seq<Nalu265>, maxSize: nat)
    requires !Reused(n, pending, maxSize) && (pending != [] ==> Sound(Together(pending), maxSize))
    ensures var turn := OneTurn(n, pending, maxSize); turn.pending != [] ==> Sound(Together(turn.pending), maxSize)
  {
    if pending != [] && Fits(pending, n, maxSize) {
      BodySnoc(pending, n);
    }
  }

  /* ---- inputs that corrupt memory ---- */

  /** After nine bytes, with a maximum of twenty: eight bytes are chained into themselves, twelve are queued
      while the aggregator holds them, thirty are freed while it does. */
  lemma ReusedExamples(a: Nalu265, b: Nalu265)
    requires |a| == 9 && |b| in {8, 12, 30}
    ensures !NoneReused([a, b], [], 20)
  {
    assert [a, b][1..] == [b] && [a][1..] == [] && Body([a]) == a + [] == a;
    assert [b][1..] == [] && Body([b]) == b + [] == b;
    assert OneTurn(a, [], 20).pending == [a];
  }
}
