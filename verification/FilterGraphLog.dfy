/**
 Reconstruction of filter graphs from a log: link lines in a row form a cluster, an unlink line ends
 the current graph. Lines are classified beforehand (the two regular expressions exclude each other).
 */
module FilterGraphLog {
  import opened Bytes

  datatype Endpoint = Endpoint(name: string, address: string, pin: string)
  datatype Link = Link(source: Endpoint, dest: Endpoint)
  datatype Line = LinkLine(link: Link) | UnlinkLine | OtherLine

  type Cluster = seq<Link>
  type Graph = seq<Cluster>

  /* ---- reference ---- */

  function LinkOf(line: Line): seq<Link>
  {
    if line.LinkLine? then [line.link] else []
  }

  function LinksOf(lines: seq<Line>): seq<Link>
  {
    if lines == [] then [] else LinkOf(lines[0]) + LinksOf(lines[1..])
  }

  function Flush(open: Cluster): seq<Cluster>
  {
    if open == [] then [] else [open]
  }

  /** The runs of link lines that some other line closes; `open` is the run under way. */
  function ClosedRuns(lines: seq<Line>, open: Cluster): seq<Cluster>
    decreases |lines|
  {
    if lines == [] then []
    else if lines[0].LinkLine? then ClosedRuns(lines[1..], open + [lines[0].link])
    else Flush(open) + ClosedRuns(lines[1..], [])
  }

  function Wrap(clusters: Graph): seq<Graph>
  {
    if clusters == [] then [] else [clusters]
  }

  /** Cut after each unlink line; each piece yields one graph of its closed runs, if it has any. */
  function GraphsFrom(lines: seq<Line>, clusters: Graph, open: Cluster): seq<Graph>
    decreases |lines|
  {
    var k := FirstUnlink(lines);
    if k == |lines| then Wrap(clusters + ClosedRuns(lines, open))
    else Wrap(clusters + ClosedRuns(lines[..k + 1], open)) + GraphsFrom(lines[k + 1..], [], [])
  }

  function Graphs(lines: seq<Line>): seq<Graph>
  {
    GraphsFrom(lines, [], [])
  }

  function FirstUnlink(lines: seq<Line>): (k: nat)
    ensures k <= |lines|
    ensures k < |lines| ==> lines[k].UnlinkLine?
    ensures forall i :: 0 <= i < k ==> !lines[i].UnlinkLine?
  {
    if lines == [] || lines[0].UnlinkLine? then 0 else 1 + FirstUnlink(lines[1..])
  }

  /* ---- the scanner ---- */

  lemma ScanUnlink(rest: seq<Line>, clusters: Graph, open: Cluster)
    requires rest != [] && rest[0].UnlinkLine?
    ensures GraphsFrom(rest, clusters, open) == Wrap(clusters + Flush(open)) + GraphsFrom(rest[1..], [], [])
  {
    assert rest[..1] == [rest[0]] && [rest[0]][1..] == [];
    assert ClosedRuns([rest[0]], open) == Flush(open) + [] == Flush(open);
  }

  lemma ScanLine(rest: seq<Line>, clusters: Graph, open: Cluster)
    requires rest != [] && !rest[0].UnlinkLine?
    ensures GraphsFrom(rest, clusters, open)
         == if rest[0].LinkLine? then GraphsFrom(rest[1..], clusters, open + [rest[0].link])
            else GraphsFrom(rest[1..], clusters + Flush(open), [])
  {
    var k, tail := FirstUnlink(rest), rest[1..];
    assert FirstUnlink(tail) == k - 1;
    var head := if k < |rest| then rest[..k + 1] else rest;
    assert head[1..] == if k < |rest| then tail[..k] else tail;
    if k < |rest| {
      assert rest[k + 1..] == tail[k..];
    }
    if !rest[0].LinkLine? {
      Assoc(clusters, Flush(open), ClosedRuns(head[1..], []));
    }
  }

  /** The loop body: what one line does to the graphs, the clusters and the links collected so far. */
  method ScanOne(line: Line, graphs: seq<Graph>, clusters: Graph, links: Cluster)
    returns (graphs': seq<Graph>, clusters': Graph, links': Cluster)
    ensures line.UnlinkLine? ==> graphs' == graphs + Wrap(clusters + Flush(links)) && clusters' == [] && links' == []
    ensures line.LinkLine? ==> graphs' == graphs && clusters' == clusters && links' == links + [line.link]
    ensures line.OtherLine? ==> graphs' == graphs && clusters' == clusters + Flush(links) && links' == []
  {
    graphs', clusters', links' := graphs, clusters, links;
    assert clusters + [] == clusters && graphs + [] == graphs;
    if line.UnlinkLine? {
      if links' != [] {
        clusters' := clusters' + [links'];
      }
      if clusters' != [] {
        graphs' := graphs' + [clusters'];
      }
      links' := [];
      clusters' := [];
    }
    if line.LinkLine? {
      links' := links' + [line.link];
    } else if links' != [] {
      clusters' := clusters' + [links'];
      links' := [];
    }
  }

  method Scan(lines: seq<Line>) returns (graphs: seq<Graph>)
    ensures graphs == Graphs(lines)
  {
    graphs := [];
    var clusters: Graph := [];
    var links: Cluster := [];
    for i := 0 to |lines|
      invariant graphs + GraphsFrom(lines[i..], clusters, links) == Graphs(lines)
    {
      ghost var rest := lines[i..];
      assert rest[0] == lines[i] && rest[1..] == lines[i + 1..];
      if lines[i].UnlinkLine? {
        ScanUnlink(rest, clusters, links);
        Assoc(graphs, Wrap(clusters + Flush(links)), GraphsFrom(rest[1..], [], []));
      } else {
        ScanLine(rest, clusters, links);
      }
      graphs, clusters, links := ScanOne(lines[i], graphs, clusters, links);
    }
    assert lines[|lines|..] == [];
    assert clusters + [] == clusters;
    if clusters != [] {
      graphs := graphs + [clusters];
    }
  }

  /* ---- nothing is lost or reordered, except an unclosed last run ---- */

  /** Where the run of link lines that reaches the end of the file starts. */
  function TrailStart(lines: seq<Line>): (k: nat)
    ensures k <= |lines|
    ensures forall i :: k <= i < |lines| ==> lines[i].LinkLine?
    ensures k > 0 ==> !lines[k - 1].LinkLine?
  {
    if lines == [] || !lines[|lines| - 1].LinkLine? then |lines| else TrailStart(lines[..|lines| - 1])
  }

  lemma {:induction false} LinksAppend(a: seq<Line>, b: seq<Line>)
    ensures LinksOf(a + b) == LinksOf(a) + LinksOf(b)
  {
    if a == [] {
      assert a + b == b;
    } else {
      assert (a + b)[1..] == a[1..] + b;
      LinksAppend(a[1..], b);
      Assoc(LinkOf(a[0]), LinksOf(a[1..]), LinksOf(b));
    }
  }

  ghost predicate AllLinks(lines: seq<Line>)
  {
    forall i :: 0 <= i < |lines| ==> lines[i].LinkLine?
  }

  lemma {:induction false} OpenRunDropped(lines: seq<Line>, open: Cluster)
    requires AllLinks(lines)
    ensures ClosedRuns(lines, open) == []
    decreases |lines|
  {
    if lines != [] {
      OpenRunDropped(lines[1..], open + [lines[0].link]);
    }
  }

  /** The closed runs of `a + b` when `a` ends with a line that is not a link. */
  lemma {:induction false} RunsAppend(a: seq<Line>, b: seq<Line>, open: Cluster)
    requires a == [] ==> open == []
    requires a != [] ==> !a[|a| - 1].LinkLine?
    ensures ClosedRuns(a + b, open) == ClosedRuns(a, open) + ClosedRuns(b, [])
    decreases |a|
  {
    if a == [] {
      assert a + b == b;
    } else {
      assert (a + b)[1..] == a[1..] + b;
      if a[0].LinkLine? {
        RunsAppend(a[1..], b, open + [a[0].link]);
      } else {
        RunsAppend(a[1..], b, []);
        Assoc(Flush(open), ClosedRuns(a[1..], []), ClosedRuns(b, []));
      }
    }
  }

  lemma {:induction false} ClosedRunsFlatten(lines: seq<Line>, open: Cluster)
    requires lines == [] ==> open == []
    requires lines != [] ==> !lines[|lines| - 1].LinkLine?
    ensures Flatten(ClosedRuns(lines, open)) == open + LinksOf(lines)
    decreases |lines|
  {
    if lines != [] {
      var tail := lines[1..];
      if lines[0].LinkLine? {
        ClosedRunsFlatten(tail, open + [lines[0].link]);
        Assoc(open, [lines[0].link], LinksOf(tail));
      } else {
        ClosedRunsFlatten(tail, []);
        FlattenAppend(Flush(open), ClosedRuns(tail, []));
        assert Flatten(Flush(open)) == open by { if open != [] { assert [open][1..] == []; } }
        assert [] + LinksOf(tail) == LinksOf(tail);
      }
    }
  }

  /** Dropping the graph boundaries leaves exactly the closed runs, in order. */
  lemma {:induction false} GraphsFlatten(lines: seq<Line>, clusters: Graph, open: Cluster)
    ensures Flatten(GraphsFrom(lines, clusters, open)) == clusters + ClosedRuns(lines, open)
    decreases |lines|
  {
    var k := FirstUnlink(lines);
    if k == |lines| {
      WrapFlatten(clusters + ClosedRuns(lines, open));
    } else {
      var head, tail := lines[..k + 1], lines[k + 1..];
      GraphsFlatten(tail, [], []);
      WrapFlatten(clusters + ClosedRuns(head, open));
      FlattenAppend(Wrap(clusters + ClosedRuns(head, open)), GraphsFrom(tail, [], []));
      assert lines == head + tail;
      RunsAppend(head, tail, open);
      assert [] + ClosedRuns(tail, []) == ClosedRuns(tail, []);
      Assoc(clusters, ClosedRuns(head, open), ClosedRuns(tail, []));
    }
  }

  lemma WrapFlatten(clusters: Graph)
    ensures Flatten(Wrap(clusters)) == clusters
  {
    if clusters != [] {
      assert [clusters][1..] == [];
    }
  }

  /** For every log: all links of all clusters of all graphs, in order, are the link lines up to the run
      that reaches the end of the file. */
  lemma LinksConserved(lines: seq<Line>)
    ensures Flatten(Flatten(Graphs(lines))) == LinksOf(lines[..TrailStart(lines)])
  {
    var k := TrailStart(lines);
    var head, tail := lines[..k], lines[k..];
    GraphsFlatten(lines, [], []);
    assert [] + ClosedRuns(lines, []) == ClosedRuns(lines, []);
    assert lines == head + tail;
    RunsAppend(head, tail, []);
    OpenRunDropped(tail, []);
    ClosedRunsFlatten(head, []);
    assert ClosedRuns(head, []) + [] == ClosedRuns(head, []);
  }

  /* ---- clusters are maximal runs ---- */

  /** Lines a..b are link lines, and neither neighbour is; the run is closed by line b. */
  predicate MaximalRun(lines: seq<Line>, a: nat, b: nat)
  {
    && a < b < |lines| && !lines[b].LinkLine? && (a > 0 ==> !lines[a - 1].LinkLine?)
    && forall i :: a <= i < b ==> lines[i].LinkLine?
  }

  /** The position after which the reading of `lines[i..]` continues with the run from `s` open. */
  predicate RunOpen(lines: seq<Line>, s: nat, i: nat)
  {
    s <= i <= |lines| && (s > 0 ==> !lines[s - 1].LinkLine?) && forall j :: s <= j < i ==> lines[j].LinkLine?
  }

  lemma {:induction false} RunIsMaximal(lines: seq<Line>, s: nat, i: nat, r: Cluster) returns (a: nat, b: nat)
    requires RunOpen(lines, s, i)
    requires r in ClosedRuns(lines[i..], LinksOf(lines[s..i]))
    ensures MaximalRun(lines, a, b) && r == LinksOf(lines[a..b])
    decreases |lines| - i
  {
    var rest, open := lines[i..], LinksOf(lines[s..i]);
    assert rest != [] && rest[0] == lines[i] && rest[1..] == lines[i + 1..];
    if lines[i].LinkLine? {
      LinksAppend(lines[s..i], [lines[i]]);
      assert LinksOf([lines[i]]) == [lines[i].link] by { assert [lines[i]][1..] == []; }
      assert lines[s..i + 1] == lines[s..i] + [lines[i]];
      a, b := RunIsMaximal(lines, s, i + 1, r);
    } else if open != [] && r == open {
      a, b := s, i;
    } else {
      assert lines[i + 1..i + 1] == [];
      a, b := RunIsMaximal(lines, i + 1, i + 1, r);
    }
  }

  /** Every cluster of every graph is a maximal run of consecutive link lines, so none is empty. */
  lemma ClustersAreMaximalRuns(lines: seq<Line>, r: Cluster) returns (a: nat, b: nat)
    requires r in Flatten(Graphs(lines))
    ensures MaximalRun(lines, a, b) && r == LinksOf(lines[a..b])
  {
    GraphsFlatten(lines, [], []);
    assert lines[0..] == lines && lines[0..0] == [] && [] + ClosedRuns(lines, []) == ClosedRuns(lines, []);
    a, b := RunIsMaximal(lines, 0, 0, r);
  }

  /* ---- graphs end at unlink lines ---- */

  lemma CutAtUnlink(lines: seq<Line>, k: nat, head: seq<Line>, tail: seq<Line>)
    requires k == FirstUnlink(lines) < |lines| && head == lines[..k + 1] && tail == lines[k + 1..]
    ensures Graphs(lines) == Wrap([] + ClosedRuns(head, [])) + Graphs(tail)
  {
  }

  /** An unlink line separates what comes before it from what comes after: no graph spans it. */
  lemma {:induction false} UnlinkSeparates(a: seq<Line>, b: seq<Line>)
    ensures Graphs(a + [UnlinkLine] + b) == Graphs(a + [UnlinkLine]) + Graphs(b)
    decreases |a|
  {
    var left := a + [UnlinkLine];
    var k := FirstUnlink(left);
    assert left[|a|].UnlinkLine?;
    FirstUnlinkPrefix(left, b);
    var head, rest := left[..k + 1], left[k + 1..];
    assert (left + b)[..k + 1] == head && (left + b)[k + 1..] == rest + b;
    CutAtUnlink(left, k, head, rest);
    CutAtUnlink(left + b, k, head, rest + b);
    Assoc(Wrap([] + ClosedRuns(head, [])), Graphs(rest), Graphs(b));
    PieceSeparates(a, b, k, rest);
  }

  lemma {:induction false} PieceSeparates(a: seq<Line>, b: seq<Line>, k: nat, rest: seq<Line>)
    requires k <= |a| && rest == (a + [UnlinkLine])[k + 1..]
    ensures Graphs(rest + b) == Graphs(rest) + Graphs(b)
    decreases |a|, 0
  {
    if k == |a| {
      NoLines();
      assert rest == [] && [] + b == b && [] + Graphs(b) == Graphs(b);
    } else {
      assert rest == a[k + 1..] + [UnlinkLine];
      UnlinkSeparates(a[k + 1..], b);
    }
  }

  lemma NoLines()
    ensures Graphs([]) == []
  {
  }

  lemma {:induction false} FirstUnlinkPrefix(left: seq<Line>, b: seq<Line>)
    requires exists i :: 0 <= i < |left| && left[i].UnlinkLine?
    ensures FirstUnlink(left + b) == FirstUnlink(left) < |left|
  {
    var i :| 0 <= i < |left| && left[i].UnlinkLine?;
    if !left[0].UnlinkLine? {
      assert left[1..][i - 1].UnlinkLine?;
      FirstUnlinkPrefix(left[1..], b);
      assert (left + b)[1..] == left[1..] + b;
    }
  }

  /** Between two unlink lines there is one graph, or none when no run was closed. */
  lemma OneGraphPerPiece(lines: seq<Line>)
    requires FirstUnlink(lines) >= |lines| - 1
    ensures Graphs(lines) == Wrap(ClosedRuns(lines, []))
  {
    var k := FirstUnlink(lines);
    assert [] + ClosedRuns(lines, []) == ClosedRuns(lines, []);
    if k < |lines| {
      assert lines[..k + 1] == lines && lines[k + 1..] == [];
      assert Wrap(ClosedRuns(lines, [])) + [] == Wrap(ClosedRuns(lines, []));
    }
  }
}
