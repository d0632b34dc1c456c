/**
 Setup and teardown of the benchmark's sessions. The media library is reduced to what it demands of its
 callers: filters are created, linked, attached to the ticker and destroyed, and a filter may be
 destroyed only once, while it is neither linked nor attached. Which creations and queries fail is
 arbitrary.
 */
module BenchSessions {
  import opened Bytes

  type Filter = nat

  /** A session record; None stands for the null pointer. */
  datatype TestSession = TestSession(
    fplayer: Option<Filter>, encoder: Option<Filter>, rtpsend: Option<Filter>,
    rtprecv: Option<Filter>, decoder: Option<Filter>, frecorder: Option<Filter>)

  /** What the outside world answers while one session is set up. */
  datatype Answers = Answers(
    rtp: bool, fplayer: bool, encoder: bool, rtpsend: bool, rtprecv: bool, decoder: bool, frecorder: bool,
    openStatus: int, fileRate: int, channels: int)

  datatype Config = Config(au: bool, payloadRate: Option<int>, answers: seq<Answers>)

  function Opt(f: Option<Filter>): set<Filter>
  {
    if f.Some? then {f.value} else {}
  }

  function Filters(ts: TestSession): set<Filter>
  {
    Opt(ts.fplayer) + Opt(ts.encoder) + Opt(ts.rtpsend) + Opt(ts.rtprecv) + Opt(ts.decoder) + Opt(ts.frecorder)
  }

  /** A session that made it into the list: all filters present and distinct, the encoder unless the
      file is already encoded. */
  predicate Complete(ts: TestSession, au: bool)
  {
    && ts.fplayer.Some? && ts.rtpsend.Some? && ts.rtprecv.Some? && ts.decoder.Some? && ts.frecorder.Some?
    && (ts.encoder.None? <==> au)
    && Different(ts)
  }

  predicate Different(ts: TestSession)
  {
    Opt(ts.fplayer) !! Opt(ts.encoder) !! Opt(ts.rtpsend) !! Opt(ts.rtprecv) !! Opt(ts.decoder) !! Opt(ts.frecorder)
  }

  function Links(ts: TestSession, au: bool): set<(Filter, Filter)>
    requires Complete(ts, au)
  {
    (if au then {(ts.fplayer.value, ts.rtpsend.value)}
     else {(ts.fplayer.value, ts.encoder.value), (ts.encoder.value, ts.rtpsend.value)})
    + {(ts.rtprecv.value, ts.decoder.value), (ts.decoder.value, ts.frecorder.value)}
  }

  function Sources(ts: TestSession, au: bool): set<Filter>
    requires Complete(ts, au)
  {
    {ts.fplayer.value, ts.rtprecv.value}
  }

  /* ---- a list of sessions ---- */

  predicate AllComplete(ss: seq<TestSession>, au: bool)
  {
    forall ts :: ts in ss ==> Complete(ts, au)
  }

  function AllFilters(ss: seq<TestSession>): set<Filter>
  {
    if ss == [] then {} else Filters(ss[0]) + AllFilters(ss[1..])
  }

  function AllLinks(ss: seq<TestSession>, au: bool): set<(Filter, Filter)>
    requires AllComplete(ss, au)
  {
    if ss == [] then {} else Links(ss[0], au) + AllLinks(ss[1..], au)
  }

  function AllSources(ss: seq<TestSession>, au: bool): set<Filter>
    requires AllComplete(ss, au)
  {
    if ss == [] then {} else Sources(ss[0], au) + AllSources(ss[1..], au)
  }

  /** No two sessions share a filter. */
  predicate Separate(ss: seq<TestSession>)
  {
    ss == [] || (Filters(ss[0]) !! AllFilters(ss[1..]) && Separate(ss[1..]))
  }

  lemma {:induction false} AppendSession(ss: seq<TestSession>, ts: TestSession, au: bool)
    requires AllComplete(ss, au) && Complete(ts, au)
    ensures AllComplete(ss + [ts], au)
    ensures AllFilters(ss + [ts]) == AllFilters(ss) + Filters(ts)
    ensures AllLinks(ss + [ts], au) == AllLinks(ss, au) + Links(ts, au)
    ensures AllSources(ss + [ts], au) == AllSources(ss, au) + Sources(ts, au)
    ensures Separate(ss) && AllFilters(ss) !! Filters(ts) ==> Separate(ss + [ts])
  {
    if ss == [] {
      assert ss + [ts] == [ts] && [ts][1..] == [];
    } else {
      assert (ss + [ts])[1..] == ss[1..] + [ts];
      AppendSession(ss[1..], ts, au);
    }
  }

  ghost predicate Within(links: set<(Filter, Filter)>, fs: set<Filter>)
  {
    forall l :: l in links ==> l.0 in fs && l.1 in fs
  }

  lemma SessionWithin(ts: TestSession, au: bool)
    requires Complete(ts, au)
    ensures Within(Links(ts, au), Filters(ts)) && Sources(ts, au) <= Filters(ts)
  {
    assert ts.fplayer.value in Opt(ts.fplayer) && ts.rtpsend.value in Opt(ts.rtpsend);
    assert ts.rtprecv.value in Opt(ts.rtprecv) && ts.decoder.value in Opt(ts.decoder);
    assert ts.frecorder.value in Opt(ts.frecorder) && (!au ==> ts.encoder.value in Opt(ts.encoder));
  }

  lemma {:induction false} LinksWithin(ss: seq<TestSession>, au: bool)
    requires AllComplete(ss, au)
    ensures Within(AllLinks(ss, au), AllFilters(ss)) && AllSources(ss, au) <= AllFilters(ss)
  {
    if ss != [] {
      assert ss[0] in ss;
      SessionWithin(ss[0], au);
      LinksWithin(ss[1..], au);
    }
  }

  /** Taking the first session out of the lists takes out exactly its own links and sources. */
  lemma RemoveFirst(ss: seq<TestSession>, au: bool)
    requires ss != [] && AllComplete(ss, au) && Separate(ss)
    ensures AllComplete(ss[1..], au) && Separate(ss[1..])
    ensures AllFilters(ss[1..]) == AllFilters(ss) - Filters(ss[0])
    ensures AllLinks(ss[1..], au) == AllLinks(ss, au) - Links(ss[0], au)
    ensures AllSources(ss[1..], au) == AllSources(ss, au) - Sources(ss[0], au)
    ensures Within(AllLinks(ss[1..], au), AllFilters(ss[1..])) && AllSources(ss[1..], au) <= AllFilters(ss[1..])
  {
    assert ss[0] in ss;
    LinksWithin(ss[1..], au);
    SessionWithin(ss[0], au);
  }

  /* ---- what runs ---- */

  /** Each filter of the chain feeds the next one. */
  ghost predicate Path(links: set<(Filter, Filter)>, chain: seq<Filter>)
  {
    forall i :: 0 < i < |chain| ==> (chain[i - 1], chain[i]) in links
  }

  ghost predicate Neighbours(chain: seq<Filter>, a: Filter, b: Filter)
  {
    exists i :: 0 < i < |chain| && chain[i - 1] == a && chain[i] == b
  }

  /** From the player to the RTP sender, through the encoder if the session has one. */
  function SendChain(ts: TestSession): seq<Filter>
    requires ts.fplayer.Some? && ts.rtpsend.Some?
  {
    if ts.encoder.Some? then [ts.fplayer.value, ts.encoder.value, ts.rtpsend.value]
    else [ts.fplayer.value, ts.rtpsend.value]
  }

  function ReceiveChain(ts: TestSession): seq<Filter>
    requires ts.rtprecv.Some? && ts.decoder.Some? && ts.frecorder.Some?
  {
    [ts.rtprecv.value, ts.decoder.value, ts.frecorder.value]
  }

  /** Both chains of the session are linked, and their first filters are driven by the ticker. */
  ghost predicate Running(ts: TestSession, links: set<(Filter, Filter)>, attached: set<Filter>)
  {
    && ts.fplayer.Some? && ts.rtpsend.Some? && ts.rtprecv.Some? && ts.decoder.Some? && ts.frecorder.Some?
    && Path(links, SendChain(ts)) && Path(links, ReceiveChain(ts))
    && ts.fplayer.value in attached && ts.rtprecv.value in attached
  }

  /** The link joins two neighbours of a chain of some session. */
  ghost predicate OnChain(ss: seq<TestSession>, au: bool, l: (Filter, Filter))
    requires AllComplete(ss, au)
  {
    exists ts :: ts in ss && (Neighbours(SendChain(ts), l.0, l.1) || Neighbours(ReceiveChain(ts), l.0, l.1))
  }

  ghost predicate StartsChain(ss: seq<TestSession>, f: Filter)
  {
    exists ts :: ts in ss && (ts.fplayer == Some(f) || ts.rtprecv == Some(f))
  }

  lemma LinksAreChains(ts: TestSession, au: bool)
    requires Complete(ts, au)
    ensures Running(ts, Links(ts, au), Sources(ts, au))
    ensures forall l :: l in Links(ts, au) ==>
              Neighbours(SendChain(ts), l.0, l.1) || Neighbours(ReceiveChain(ts), l.0, l.1)
  {
    var send, receive := SendChain(ts), ReceiveChain(ts);
    assert Neighbours(send, send[0], send[1]) && (!au ==> Neighbours(send, send[1], send[2]));
    assert Neighbours(receive, receive[0], receive[1]) && Neighbours(receive, receive[1], receive[2]);
  }

  lemma {:induction false} ListedRuns(ss: seq<TestSession>, au: bool)
    requires AllComplete(ss, au)
    ensures forall ts :: ts in ss ==> Running(ts, AllLinks(ss, au), AllSources(ss, au))
  {
    if ss != [] {
      assert ss[0] in ss;
      LinksAreChains(ss[0], au);
      ListedRuns(ss[1..], au);
      forall ts | ts in ss ensures Running(ts, AllLinks(ss, au), AllSources(ss, au)) {
        if ts != ss[0] {
          assert ts in ss[1..];
        }
      }
    }
  }

  lemma {:induction false} NothingElseRuns(ss: seq<TestSession>, au: bool)
    requires AllComplete(ss, au)
    ensures forall l :: l in AllLinks(ss, au) ==> OnChain(ss, au, l)
    ensures forall f :: f in AllSources(ss, au) ==> StartsChain(ss, f)
  {
    if ss != [] {
      assert ss[0] in ss;
      LinksAreChains(ss[0], au);
      NothingElseRuns(ss[1..], au);
      forall l | l in AllLinks(ss, au) ensures OnChain(ss, au, l) {
        if l !in Links(ss[0], au) {
          assert OnChain(ss[1..], au, l);
        }
      }
      forall f | f in AllSources(ss, au) ensures StartsChain(ss, f) {
        if f !in Sources(ss[0], au) {
          assert StartsChain(ss[1..], f);
        }
      }
    }
  }

  /* ---- the library and the bench ---- */

  class Bench {
    const config: Config
    var nextId: nat
    var live: set<Filter>
    var links: set<(Filter, Filter)>
    var attached: set<Filter>
    var destroyed: multiset<Filter>
    var sessions: seq<TestSession>

    /** Every filter ever created is either live or was destroyed once; no other id is in use. */
    ghost predicate Accounted()
      reads this
    {
      forall f: Filter :: if f < nextId then (if f in live then destroyed[f] == 0 else destroyed[f] == 1)
                          else f !in live && destroyed[f] == 0
    }

    /** Between calls, the live filters, links and attachments are those of the listed sessions. */
    ghost predicate Valid()
      reads this
    {
      && Accounted() && AllComplete(sessions, config.au) && Separate(sessions)
      && live == AllFilters(sessions)
      && links == AllLinks(sessions, config.au)
      && attached == AllSources(sessions, config.au)
    }

    constructor (config: Config)
      ensures Valid() && this.config == config && sessions == [] && nextId == 0
    {
      this.config := config;
      nextId, live, links, attached, destroyed, sessions := 0, {}, {}, {}, multiset{}, [];
    }

    method Create(ok: bool) returns (f: Option<Filter>)
      requires Accounted()
      modifies this`nextId, this`live
      ensures Accounted() && f.Some? == ok
      ensures Opt(f) !! old(live) && live == old(live) + Opt(f)
      ensures nextId >= old(nextId) && (f.Some? ==> old(nextId) <= f.value < nextId)
    {
      f := None;
      if ok {
        f := Some(nextId);
        live := live + {nextId};
        nextId := nextId + 1;
      }
    }

    method Link(a: Filter, b: Filter)
      requires a in live && b in live && (a, b) !in links
      modifies this`links
      ensures links == old(links) + {(a, b)}
    {
      links := links + {(a, b)};
    }

    method Unlink(a: Filter, b: Filter)
      requires a in live && b in live && (a, b) in links
      modifies this`links
      ensures links == old(links) - {(a, b)}
    {
      links := links - {(a, b)};
    }

    method Attach(f: Filter)
      requires f in live
      modifies this`attached
      ensures attached == old(attached) + {f}
    {
      attached := attached + {f};
    }

    method Detach(f: Filter)
      requires f in attached
      modifies this`attached
      ensures attached == old(attached) - {f}
    {
      attached := attached - {f};
    }

    /** `if (f) ms_filter_destroy(f)`: a filter must be live, unlinked and detached. */
    method Destroy(f: Option<Filter>)
      requires Accounted() && Opt(f) <= live && Opt(f) !! attached
      requires forall l :: l in links ==> l.0 !in Opt(f) && l.1 !in Opt(f)
      modifies this`live, this`destroyed
      ensures Accounted() && live == old(live) - Opt(f)
    {
      if f.Some? {
        live := live - {f.value};
        destroyed := destroyed + multiset{f.value};
      }
    }

    method DestroyAll(ts: TestSession)
      requires Accounted() && Different(ts) && Filters(ts) <= live && Filters(ts) !! attached
      requires forall l :: l in links ==> l.0 !in Filters(ts) && l.1 !in Filters(ts)
      modifies this`live, this`destroyed
      ensures Accounted() && live == old(live) - Filters(ts)
    {
      Destroy(ts.fplayer);
      Destroy(ts.encoder);
      Destroy(ts.rtpsend);
      Destroy(ts.rtprecv);
      Destroy(ts.decoder);
      Destroy(ts.frecorder);
    }

    /** Up to three filters in a row; the middle one only if wanted. */
    method CreateThree(first: bool, wanted: bool, second: bool, third: bool)
      returns (f: Option<Filter>, g: Option<Filter>, h: Option<Filter>)
      requires Accounted()
      modifies this`nextId, this`live
      ensures Accounted() && Opt(f) !! Opt(g) !! Opt(h)
      ensures Opt(f) + Opt(g) + Opt(h) !! old(live) && live == old(live) + (Opt(f) + Opt(g) + Opt(h))
      ensures f.Some? == first && g.Some? == (wanted && second) && h.Some? == third
    {
      f := Create(first);
      g := None;
      if wanted {
        g := Create(second);
      }
      h := Create(third);
    }

    method CreateFilters(a: Answers) returns (ts: TestSession)
      requires Accounted()
      modifies this`nextId, this`live
      ensures Accounted() && Different(ts)
      ensures Filters(ts) !! old(live) && live == old(live) + Filters(ts)
      ensures ts.fplayer.Some? == a.fplayer && ts.encoder.Some? == (!config.au && a.encoder)
      ensures ts.rtpsend.Some? == a.rtpsend && ts.rtprecv.Some? == a.rtprecv
      ensures ts.decoder.Some? == a.decoder && ts.frecorder.Some? == a.frecorder
    {
      var fplayer, encoder, rtpsend := CreateThree(a.fplayer, !config.au, a.encoder, a.rtpsend);
      var rtprecv, decoder, frecorder := CreateThree(a.rtprecv, true, a.decoder, a.frecorder);
      ts := TestSession(fplayer, encoder, rtpsend, rtprecv, decoder, frecorder);
      assert Filters(ts) == Opt(fplayer) + Opt(encoder) + Opt(rtpsend) + (Opt(rtprecv) + Opt(decoder) + Opt(frecorder));
    }

    /** The checks after creation, in the order of the source; any failure abandons the session. */
    predicate Usable(ts: TestSession, a: Answers, rate: int)
    {
      if (ts.encoder == None && !config.au) || ts.decoder == None then false
      else if ts.fplayer == None then false
      else if ts.frecorder == None then false
      else if ts.rtpsend == None then false
      else if ts.rtprecv == None then false
      else if a.openStatus != 0 then false
      else if a.fileRate != rate then false
      else a.channels == 1
    }

    /** What the outside world must answer for a session to be listed. */
    predicate Succeeds(a: Answers, rate: int)
    {
      && a.rtp && a.fplayer && (config.au || a.encoder) && a.rtpsend && a.rtprecv && a.decoder && a.frecorder
      && a.openStatus == 0 && a.fileRate == rate && a.channels == 1
    }

    method LinkAndAttach(ts: TestSession)
      requires Complete(ts, config.au) && Filters(ts) <= live
      requires forall l :: l in links ==> l.0 !in Filters(ts)
      modifies this`links, this`attached
      ensures links == old(links) + Links(ts, config.au)
      ensures attached == old(attached) + Sources(ts, config.au)
    {
      SessionWithin(ts, config.au);
      if !config.au {
        Link(ts.fplayer.value, ts.encoder.value);
        Link(ts.encoder.value, ts.rtpsend.value);
      } else {
        Link(ts.fplayer.value, ts.rtpsend.value);
      }
      Link(ts.rtprecv.value, ts.decoder.value);
      Link(ts.decoder.value, ts.frecorder.value);
      Attach(ts.fplayer.value);
      Attach(ts.rtprecv.value);
    }

    /** The filters of `ts` are live on top of those of the listed sessions, unlinked and detached. */
    ghost predicate Pending(ts: TestSession)
      reads this
    {
      && Accounted() && AllComplete(sessions, config.au) && Separate(sessions) && Different(ts)
      && AllFilters(sessions) !! Filters(ts) && live == AllFilters(sessions) + Filters(ts)
      && links == AllLinks(sessions, config.au) && attached == AllSources(sessions, config.au)
    }

    /** The end of a failed turn: the new filters are destroyed. */
    method Abandon(ts: TestSession)
      requires Pending(ts)
      modifies this`live, this`destroyed
      ensures Valid()
    {
      LinksWithin(sessions, config.au);
      DestroyAll(ts);
    }

    /** The end of a successful turn: the new filters are linked, attached and listed. */
    method ListSession(ts: TestSession)
      requires Pending(ts) && Complete(ts, config.au)
      modifies this`links, this`attached, this`sessions
      ensures Valid() && sessions == old(sessions) + [ts]
    {
      LinksWithin(sessions, config.au);
      LinkAndAttach(ts);
      AppendSession(sessions, ts, config.au);
      sessions := sessions + [ts];
    }

    /** One turn of the setup loop; `done` is false when the source returns early. */
    method InitSession(a: Answers, rate: int) returns (done: bool)
      requires Valid()
      modifies this`nextId, this`live, this`links, this`attached, this`destroyed, this`sessions
      ensures Valid() && done == Succeeds(a, rate)
      ensures done ==> |sessions| == |old(sessions)| + 1 && old(sessions) <= sessions
      ensures !done ==> sessions == old(sessions) && live == old(live)
      ensures !done ==> links == old(links) && attached == old(attached)
    {
      if !a.rtp {
        return false;
      }
      var ts := CreateFilters(a);
      if !Usable(ts, a, rate) {
        Abandon(ts);
        return false;
      }
      ListSession(ts);
      return true;
    }

    /** The sessions that succeed before the first one that fails; none for an unusable payload type. */
    ghost predicate LeadingSuccesses(count: nat)
    {
      if config.payloadRate.Some? && config.payloadRate.value in {8000, 16000, 32000} then
        && count <= |config.answers|
        && (forall i :: 0 <= i < count ==> Succeeds(config.answers[i], config.payloadRate.value))
        && (count < |config.answers| ==> !Succeeds(config.answers[count], config.payloadRate.value))
      else count == 0
    }

    /** Every listed session runs from player to sender and from receiver to recorder, and nothing else is linked
        or attached. */
    ghost predicate Connected()
      requires AllComplete(sessions, config.au)
      reads this
    {
      && (forall ts :: ts in sessions ==> Running(ts, links, attached))
      && (forall l :: l in links ==> OnChain(sessions, config.au, l))
      && (forall f :: f in attached ==> StartsChain(sessions, f))
    }

    lemma ValidConnected()
      requires Valid()
      ensures Connected()
    {
      ListedRuns(sessions, config.au);
      NothingElseRuns(sessions, config.au);
    }

    /** Setup lists one session per leading success and stops at the first failure. */
    method InitBench() returns (count: nat)
      requires Valid()
      modifies this`nextId, this`live, this`links, this`attached, this`destroyed, this`sessions
      ensures Valid() && |sessions| == |old(sessions)| + count && old(sessions) <= sessions
      ensures LeadingSuccesses(count) && Connected()
    {
      count := ListSessions();
      ValidConnected();
    }

    method ListSessions() returns (count: nat)
      requires Valid()
      modifies this`nextId, this`live, this`links, this`attached, this`destroyed, this`sessions
      ensures Valid() && |sessions| == |old(sessions)| + count && old(sessions) <= sessions
      ensures LeadingSuccesses(count)
    {
      count := 0;
      if config.payloadRate == None {
        return;
      }
      var rate := config.payloadRate.value;
      if rate != 8000 && rate != 16000 && rate != 32000 {
        return;
      }
      for pos := 0 to |config.answers|
        invariant Valid() && count == pos
        invariant forall i :: 0 <= i < count ==> Succeeds(config.answers[i], rate)
        invariant |sessions| == |old(sessions)| + count && old(sessions) <= sessions
      {
        var done := InitSession(config.answers[pos], rate);
        if !done {
          return;
        }
        count := count + 1;
      }
    }

    method UnlinkAndDetach(ts: TestSession)
      requires Complete(ts, config.au) && Filters(ts) <= live
      requires Links(ts, config.au) <= links && Sources(ts, config.au) <= attached
      modifies this`links, this`attached
      ensures links == old(links) - Links(ts, config.au)
      ensures attached == old(attached) - Sources(ts, config.au)
    {
      SessionWithin(ts, config.au);
      Detach(ts.fplayer.value);
      Detach(ts.rtprecv.value);
      if !config.au {
        Unlink(ts.fplayer.value, ts.encoder.value);
        Unlink(ts.encoder.value, ts.rtpsend.value);
      } else {
        Unlink(ts.fplayer.value, ts.rtpsend.value);
      }
      Unlink(ts.rtprecv.value, ts.decoder.value);
      Unlink(ts.decoder.value, ts.frecorder.value);
    }

    method UninitFirst()
      requires Valid() && sessions != []
      modifies this`live, this`links, this`attached, this`destroyed, this`sessions
      ensures Valid() && sessions == old(sessions)[1..]
    {
      var ts := sessions[0];
      assert ts in sessions;
      RemoveFirst(sessions, config.au);
      sessions := sessions[1..];
      UnlinkAndDetach(ts);
      DestroyAll(ts);
    }

    /** Teardown: nothing is left alive, linked, attached or listed. */
    method UninitBench()
      requires Valid()
      modifies this`live, this`links, this`attached, this`destroyed, this`sessions
      ensures Valid() && sessions == [] && live == {} && links == {} && attached == {}
    {
      while sessions != []
        invariant Valid()
        decreases |sessions|
      {
        UninitFirst();
      }
    }
  }

  /** For any number of sessions and any pattern of failures: setup returns the number of sessions it
      listed, and after teardown every filter ever created has been destroyed exactly once. That no
      filter was linked or attached when destroyed is the precondition of each destruction. */
  method RunBench(config: Config) returns (count: nat, bench: Bench)
    ensures fresh(bench) && bench.config == config && bench.LeadingSuccesses(count)
    ensures bench.live == {} && bench.links == {} && bench.attached == {}
    ensures forall f: Filter :: f < bench.nextId ==> bench.destroyed[f] == 1
  {
    bench := new Bench(config);
    count := bench.InitBench();
    bench.UninitBench();
  }
}
