/**
 The DOT file written for the reconstructed graphs: one statement per write, numbered nodes, one
 dictionary of addresses per cluster.
 */
module FilterGraphDot {
  import opened Bytes
  import opened FilterGraphLog

  datatype Stmt =
    | OpenFile
    | OpenGraph(number: nat)
    | OpenCluster(number: nat)
    | Node(number: nat, name: string, address: string)
    | Edge(tail: nat, head: nat, tailPin: string, headPin: string)
    | Close

  /* ---- reference: who gets which number ---- */

  /** The endpoints in the order the writer meets them. */
  function Endpoints(links: Cluster): seq<Endpoint>
  {
    if links == [] then [] else [links[0].source, links[0].dest] + Endpoints(links[1..])
  }

  /** Position of the first endpoint with the given address. */
  function IndexOf(es: seq<Endpoint>, address: string): (i: nat)
    ensures i <= |es|
    ensures i < |es| ==> es[i].address == address
    ensures forall k :: 0 <= k < i ==> es[k].address != address
  {
    if es == [] || es[0].address == address then 0 else 1 + IndexOf(es[1..], address)
  }

  predicate Distinct(es: seq<Endpoint>)
  {
    forall i, j :: 0 <= i < j < |es| ==> es[i].address != es[j].address
  }

  /** `declared` extended by the endpoints whose address is new, in order. */
  function Declare(declared: seq<Endpoint>, es: seq<Endpoint>): seq<Endpoint>
    decreases |es|
  {
    if es == [] then declared
    else Declare(if IndexOf(declared, es[0].address) < |declared| then declared else declared + [es[0]], es[1..])
  }

  function Declared(links: Cluster): seq<Endpoint>
  {
    Declare([], Endpoints(links))
  }

  /** The node number of an address in a cluster whose first node is `base`. */
  function NodeOf(links: Cluster, base: nat, address: string): nat
  {
    base + IndexOf(Declared(links), address)
  }

  function NodeStmts(declared: seq<Endpoint>, base: nat): (r: seq<Stmt>)
  {
    if declared == [] then []
    else
      var k := |declared| - 1;
      NodeStmts(declared[..k], base) + [Node(base + k, declared[k].name, declared[k].address)]
  }

  function EdgeStmts(links: Cluster, all: Cluster, base: nat): seq<Stmt>
  {
    if links == [] then []
    else
      var l := links[0];
      [Edge(NodeOf(all, base, l.source.address), NodeOf(all, base, l.dest.address), l.source.pin, l.dest.pin)]
      + EdgeStmts(links[1..], all, base)
  }

  function ClusterStmts(links: Cluster, base: nat): seq<Stmt>
  {
    NodeStmts(Declared(links), base) + EdgeStmts(links, links, base)
  }

  function BoxOpen(boxed: bool, number: nat): seq<Stmt>
  {
    if boxed then [OpenCluster(number)] else []
  }

  function BoxClose(boxed: bool): seq<Stmt>
  {
    if boxed then [Close] else []
  }

  /** Clusters from number `number` on; several clusters of one graph get a subgraph each. */
  function ClustersStmts(clusters: Graph, number: nat, boxed: bool, base: nat): seq<Stmt>
    decreases |clusters|
  {
    if clusters == [] then []
    else
      BoxOpen(boxed, number) + ClusterStmts(clusters[0], base) + BoxClose(boxed)
      + ClustersStmts(clusters[1..], number + 1, boxed, base + |Declared(clusters[0])|)
  }

  function NodeCount(clusters: Graph): nat
  {
    if clusters == [] then 0 else |Declared(clusters[0])| + NodeCount(clusters[1..])
  }

  function GraphsStmts(graphs: seq<Graph>, number: nat, base: nat): seq<Stmt>
    decreases |graphs|
  {
    if graphs == [] then []
    else
      [OpenGraph(number)] + ClustersStmts(graphs[0], 1, |graphs[0]| > 1, base) + [Close]
      + GraphsStmts(graphs[1..], number + 1, base + NodeCount(graphs[0]))
  }

  function Dot(graphs: seq<Graph>): seq<Stmt>
  {
    [OpenFile] + GraphsStmts(graphs, 1, 1) + [Close]
  }

  /* ---- the writer ---- */

  lemma {:induction false} IndexOfAppend(es: seq<Endpoint>, e: Endpoint, address: string)
    ensures IndexOf(es + [e], address)
         == if IndexOf(es, address) < |es| then IndexOf(es, address)
            else if e.address == address then |es| else |es| + 1
  {
    if es != [] && es[0].address != address {
      IndexOfAppend(es[1..], e, address);
      assert (es + [e])[1..] == es[1..] + [e];
    } else if es == [] {
      assert es + [e] == [e];
    }
  }

  /** The dictionary agrees with the declaration order. */
  ghost predicate Numbers(nodes: map<string, nat>, declared: seq<Endpoint>, base: nat)
  {
    && (forall a :: a in nodes <==> IndexOf(declared, a) < |declared|)
    && (forall a :: a in nodes ==> nodes[a] == base + IndexOf(declared, a))
  }

  /** Declares an endpoint unless its address has a number already. */
  method DeclareEndpoint(e: Endpoint, nodes: map<string, nat>, nodeNum: nat, out: seq<Stmt>,
                         ghost pre: seq<Stmt>, ghost declared: seq<Endpoint>, ghost base: nat)
    returns (nodes': map<string, nat>, nodeNum': nat, out': seq<Stmt>, ghost declared': seq<Endpoint>)
    requires Numbers(nodes, declared, base) && nodeNum == base + |declared|
    requires out == pre + NodeStmts(declared, base)
    ensures declared' == Declare(declared, [e])
    ensures Numbers(nodes', declared', base) && nodeNum' == base + |declared'|
    ensures out' == pre + NodeStmts(declared', base)
  {
    assert [e][1..] == [];
    nodes', nodeNum', out', declared' := nodes, nodeNum, out, declared;
    if e.address !in nodes {
      declared' := declared + [e];
      assert declared'[..|declared|] == declared;
      forall a: string { IndexOfAppend(declared, e, a); }
      nodes' := nodes[e.address := nodeNum];
      out' := out + [Node(nodeNum, e.name, e.address)];
      nodeNum' := nodeNum + 1;
      Assoc(pre, NodeStmts(declared, base), [Node(nodeNum, e.name, e.address)]);
    }
  }

  lemma {:induction false} DeclareAppend(declared: seq<Endpoint>, a: seq<Endpoint>, b: seq<Endpoint>)
    ensures Declare(declared, a + b) == Declare(Declare(declared, a), b)
    decreases |a|
  {
    if a == [] {
      assert a + b == b;
    } else {
      assert (a + b)[1..] == a[1..] + b;
      DeclareAppend(if IndexOf(declared, a[0].address) < |declared| then declared else declared + [a[0]], a[1..], b);
    }
  }

  lemma DeclareLink(declared: seq<Endpoint>, l: Link, rest: Cluster)
    ensures Declare(declared, Endpoints([l] + rest))
         == Declare(Declare(Declare(declared, [l.source]), [l.dest]), Endpoints(rest))
  {
    assert ([l] + rest)[1..] == rest;
    assert [l.source, l.dest] == [l.source] + [l.dest];
    DeclareAppend(declared, [l.source, l.dest], Endpoints(rest));
    DeclareAppend(declared, [l.source], [l.dest]);
  }

  method WriteNodes(links: Cluster, nodeNum: nat, out: seq<Stmt>)
    returns (nodes: map<string, nat>, nodeNum': nat, out': seq<Stmt>)
    ensures Numbers(nodes, Declared(links), nodeNum)
    ensures nodeNum' == nodeNum + |Declared(links)|
    ensures out' == out + NodeStmts(Declared(links), nodeNum)
  {
    nodes, nodeNum', out' := map[], nodeNum, out;
    ghost var declared: seq<Endpoint> := [];
    assert out + [] == out;
    for i := 0 to |links|
      invariant Numbers(nodes, declared, nodeNum) && nodeNum' == nodeNum + |declared|
      invariant out' == out + NodeStmts(declared, nodeNum)
      invariant Declare(declared, Endpoints(links[i..])) == Declared(links)
    {
      var link := links[i];
      assert links[i..] == [link] + links[i + 1..];
      DeclareLink(declared, link, links[i + 1..]);
      nodes, nodeNum', out', declared := DeclareEndpoint(link.source, nodes, nodeNum', out', out, declared, nodeNum);
      nodes, nodeNum', out', declared := DeclareEndpoint(link.dest, nodes, nodeNum', out', out, declared, nodeNum);
    }
    assert links[|links|..] == [];
  }

  /** Every endpoint of a cluster ends up declared. */
  lemma {:induction false} AllDeclared(declared: seq<Endpoint>, es: seq<Endpoint>, address: string)
    requires IndexOf(declared, address) < |declared| || exists i :: 0 <= i < |es| && es[i].address == address
    ensures IndexOf(Declare(declared, es), address) < |Declare(declared, es)|
    decreases |es|
  {
    if es != [] {
      var next := if IndexOf(declared, es[0].address) < |declared| then declared else declared + [es[0]];
      IndexOfAppend(declared, es[0], address);
      if i :| 0 <= i < |es| && es[i].address == address && i > 0 {
        assert es[1..][i - 1].address == address;
      }
      AllDeclared(next, es[1..], address);
    }
  }

  lemma {:induction false} EndpointsAt(links: Cluster, i: nat)
    requires i < |links|
    ensures |Endpoints(links)| == 2 * |links|
    ensures Endpoints(links)[2 * i] == links[i].source && Endpoints(links)[2 * i + 1] == links[i].dest
  {
    if i > 0 {
      EndpointsAt(links[1..], i - 1);
    } else if |links| > 1 {
      EndpointsAt(links[1..], 0);
    } else {
      assert links[1..] == [];
    }
  }

  lemma LinkDeclared(links: Cluster, i: nat)
    requires i < |links|
    ensures IndexOf(Declared(links), links[i].source.address) < |Declared(links)|
    ensures IndexOf(Declared(links), links[i].dest.address) < |Declared(links)|
  {
    EndpointsAt(links, i);
    MemberDeclared(Endpoints(links), links[i].source);
    MemberDeclared(Endpoints(links), links[i].dest);
  }

  lemma EdgeStep(links: Cluster, i: nat, base: nat)
    requires i < |links|
    ensures EdgeStmts(links[i..], links, base)
         == [Edge(NodeOf(links, base, links[i].source.address), NodeOf(links, base, links[i].dest.address),
                  links[i].source.pin, links[i].dest.pin)]
            + EdgeStmts(links[i + 1..], links, base)
  {
    assert links[i..][1..] == links[i + 1..];
  }

  method WriteEdges(links: Cluster, nodes: map<string, nat>, out: seq<Stmt>, ghost base: nat) returns (out': seq<Stmt>)
    requires Numbers(nodes, Declared(links), base)
    ensures out' == out + EdgeStmts(links, links, base)
  {
    out' := out;
    ghost var goal := out + EdgeStmts(links, links, base);
    assert links[0..] == links;
    for i := 0 to |links|
      invariant out' + EdgeStmts(links[i..], links, base) == goal
    {
      var edge := MakeEdge(links, i, nodes, base);
      EdgeStep(links, i, base);
      Assoc(out', [edge], EdgeStmts(links[i + 1..], links, base));
      out' := out' + [edge];
    }
    assert links[|links|..] == [] && out' + [] == out';
  }

  method MakeEdge(links: Cluster, i: nat, nodes: map<string, nat>, ghost base: nat) returns (edge: Stmt)
    requires Numbers(nodes, Declared(links), base) && i < |links|
    ensures edge == Edge(NodeOf(links, base, links[i].source.address), NodeOf(links, base, links[i].dest.address),
                         links[i].source.pin, links[i].dest.pin)
  {
    LinkDeclared(links, i);
    edge := Edge(nodes[links[i].source.address], nodes[links[i].dest.address], links[i].source.pin, links[i].dest.pin);
  }

  method WriteCluster(links: Cluster, number: nat, boxed: bool, nodeNum: nat, out: seq<Stmt>)
    returns (nodeNum': nat, out': seq<Stmt>)
    ensures nodeNum' == nodeNum + |Declared(links)|
    ensures out' == out + (BoxOpen(boxed, number) + ClusterStmts(links, nodeNum)
                           + BoxClose(boxed))
  {
    out' := out;
    if boxed {
      out' := out' + [OpenCluster(number)];
    }
    ghost var open := if boxed then [OpenCluster(number)] else [];
    assert out' == out + open;
    var nodes;
    nodes, nodeNum', out' := WriteNodes(links, nodeNum, out');
    out' := WriteEdges(links, nodes, out', nodeNum);
    Assoc(out + open, NodeStmts(Declared(links), nodeNum), EdgeStmts(links, links, nodeNum));
    Assoc(out, open, ClusterStmts(links, nodeNum));
    if boxed {
      Assoc(out, open + ClusterStmts(links, nodeNum), [Close]);
      out' := out' + [Close];
    } else {
      assert open + ClusterStmts(links, nodeNum) + [] == open + ClusterStmts(links, nodeNum);
    }
  }

  method WriteClusters(clusters: Graph, nodeNum: nat, out: seq<Stmt>) returns (nodeNum': nat, out': seq<Stmt>)
    ensures nodeNum' == nodeNum + NodeCount(clusters)
    ensures out' == out + ClustersStmts(clusters, 1, |clusters| > 1, nodeNum)
  {
    var haveCluster, clusterNum := |clusters| > 1, 1;
    nodeNum', out' := nodeNum, out;
    for i := 0 to |clusters|
      invariant clusterNum == i + 1
      invariant nodeNum' + NodeCount(clusters[i..]) == nodeNum + NodeCount(clusters)
      invariant out' + ClustersStmts(clusters[i..], clusterNum, haveCluster, nodeNum')
             == out + ClustersStmts(clusters, 1, haveCluster, nodeNum)
    {
      ghost var before, base := out', nodeNum';
      assert clusters[i..][1..] == clusters[i + 1..];
      nodeNum', out' := WriteCluster(clusters[i], clusterNum, haveCluster, nodeNum', out');
      ghost var box := BoxOpen(haveCluster, clusterNum) + ClusterStmts(clusters[i], base)
                       + BoxClose(haveCluster);
      Assoc(before, box, ClustersStmts(clusters[i + 1..], clusterNum + 1, haveCluster, nodeNum'));
      clusterNum := clusterNum + 1;
    }
    assert clusters[|clusters|..] == [] && out' + [] == out';
  }

  /** The whole file; nothing is written when there is no graph. */
  method WriteDot(graphs: seq<Graph>) returns (file: Option<seq<Stmt>>)
    ensures file == if graphs == [] then None else Some(Dot(graphs))
  {
    if graphs == [] {
      return None;
    }
    var out := [OpenFile];
    var graphNum, nodeNum := 1, 1;
    ghost var goal := [OpenFile] + GraphsStmts(graphs, 1, 1);
    for i := 0 to |graphs|
      invariant graphNum == i + 1
      invariant out + GraphsStmts(graphs[i..], graphNum, nodeNum) == goal
    {
      ghost var before, base := out, nodeNum;
      assert graphs[i..][1..] == graphs[i + 1..];
      ghost var body := ClustersStmts(graphs[i], 1, |graphs[i]| > 1, base);
      out := out + [OpenGraph(graphNum)];
      nodeNum, out := WriteClusters(graphs[i], nodeNum, out);
      out := out + [Close];
      Assoc4(before, [OpenGraph(graphNum)], body, [Close]);
      Assoc(before, [OpenGraph(graphNum)] + body + [Close], GraphsStmts(graphs[i + 1..], graphNum + 1, nodeNum));
      graphNum := graphNum + 1;
    }
    assert graphs[|graphs|..] == [] && out + [] == out;
    file := Some(out + [Close]);
  }

  /* ---- node numbers ---- */

  function NodeNumber(s: Stmt): seq<nat>
  {
    if s.Node? then [s.number] else []
  }

  function NodeNumbers(out: seq<Stmt>): seq<nat>
  {
    if out == [] then [] else NodeNumber(out[0]) + NodeNumbers(out[1..])
  }

  /** The numbers from, from + 1, ..., from + n - 1. */
  function Range(from: nat, n: nat): seq<nat>
  {
    if n == 0 then [] else Range(from, n - 1) + [from + n - 1]
  }

  lemma {:induction false} RangeAppend(from: nat, n: nat, m: nat)
    ensures Range(from, n) + Range(from + n, m) == Range(from, n + m)
  {
    if m == 0 {
      assert Range(from, n) + [] == Range(from, n);
    } else {
      RangeAppend(from, n, m - 1);
      Assoc(Range(from, n), Range(from + n, m - 1), [from + n + m - 1]);
    }
  }

  lemma {:induction false} NumbersAppend(a: seq<Stmt>, b: seq<Stmt>)
    ensures NodeNumbers(a + b) == NodeNumbers(a) + NodeNumbers(b)
  {
    if a == [] {
      assert a + b == b;
    } else {
      assert (a + b)[1..] == a[1..] + b;
      NumbersAppend(a[1..], b);
      Assoc(NodeNumber(a[0]), NodeNumbers(a[1..]), NodeNumbers(b));
    }
  }

  lemma NumbersOne(s: Stmt)
    ensures NodeNumbers([s]) == NodeNumber(s)
  {
    assert [s][1..] == [];
  }

  lemma {:induction false} NodeStmtsNumbers(declared: seq<Endpoint>, base: nat)
    ensures NodeNumbers(NodeStmts(declared, base)) == Range(base, |declared|)
  {
    if declared != [] {
      var k := |declared| - 1;
      NodeStmtsNumbers(declared[..k], base);
      var last := Node(base + k, declared[k].name, declared[k].address);
      NumbersAppend(NodeStmts(declared[..k], base), [last]);
      NumbersOne(last);
    }
  }

  lemma {:induction false} EdgeStmtsNumbers(links: Cluster, all: Cluster, base: nat)
    ensures NodeNumbers(EdgeStmts(links, all, base)) == []
  {
    if links != [] {
      EdgeStmtsNumbers(links[1..], all, base);
      assert EdgeStmts(links, all, base)[1..] == EdgeStmts(links[1..], all, base);
    }
  }

  lemma ClusterNumbers(links: Cluster, base: nat)
    ensures Numbered(ClusterStmts(links, base), base, |Declared(links)|)
  {
    NumbersAppend(NodeStmts(Declared(links), base), EdgeStmts(links, links, base));
    NodeStmtsNumbers(Declared(links), base);
    EdgeStmtsNumbers(links, links, base);
  }

  lemma BoxNumbers(open: seq<Stmt>, body: seq<Stmt>, close: seq<Stmt>, rest: seq<Stmt>)
    requires NodeNumbers(open) == [] && NodeNumbers(close) == []
    ensures NodeNumbers(open + body + close + rest) == NodeNumbers(body) + NodeNumbers(rest)
  {
    NumbersAppend(open + body + close, rest);
    NumbersAppend(open + body, close);
    NumbersAppend(open, body);
  }

  lemma BoxRange(open: seq<Stmt>, body: seq<Stmt>, close: seq<Stmt>, rest: seq<Stmt>, base: nat, n: nat, m: nat)
    requires NodeNumbers(open) == [] && NodeNumbers(close) == []
    requires NodeNumbers(body) == Range(base, n) && NodeNumbers(rest) == Range(base + n, m)
    ensures NodeNumbers(open + body + close + rest) == Range(base, n + m)
  {
    BoxNumbers(open, body, close, rest);
    RangeAppend(base, n, m);
  }

  ghost predicate Numbered(out: seq<Stmt>, base: nat, n: nat)
  {
    NodeNumbers(out) == Range(base, n)
  }

  lemma BoxedCluster(body: seq<Stmt>, boxed: bool, number: nat, rest: seq<Stmt>, base: nat, n: nat, m: nat)
    requires Numbered(body, base, n) && Numbered(rest, base + n, m)
    ensures Numbered(BoxOpen(boxed, number) + body + BoxClose(boxed) + rest,
                     base, n + m)
  {
    NumbersOne(OpenCluster(number));
    NumbersOne(Close);
    BoxRange(BoxOpen(boxed, number), body, BoxClose(boxed), rest, base, n, m);
  }

  lemma BoxedGraph(body: seq<Stmt>, number: nat, rest: seq<Stmt>, base: nat, n: nat, m: nat, all: seq<Stmt>)
    requires Numbered(body, base, n) && Numbered(rest, base + n, m)
    requires all == [OpenGraph(number)] + body + [Close] + rest
    ensures Numbered(all, base, n + m)
  {
    NumbersOne(OpenGraph(number));
    NumbersOne(Close);
    BoxRange([OpenGraph(number)], body, [Close], rest, base, n, m);
  }

  lemma {:induction false} ClustersNumbers(clusters: Graph, number: nat, boxed: bool, base: nat)
    ensures Numbered(ClustersStmts(clusters, number, boxed, base), base, NodeCount(clusters))
    decreases |clusters|
  {
    if clusters != [] {
      var n := |Declared(clusters[0])|;
      ClusterNumbers(clusters[0], base);
      ClustersNumbers(clusters[1..], number + 1, boxed, base + n);
      BoxedCluster(ClusterStmts(clusters[0], base), boxed, number,
                   ClustersStmts(clusters[1..], number + 1, boxed, base + n),
              base, n, NodeCount(clusters[1..]));
    }
  }

  function TotalNodes(graphs: seq<Graph>): nat
  {
    if graphs == [] then 0 else NodeCount(graphs[0]) + TotalNodes(graphs[1..])
  }

  lemma {:induction false} GraphsNumbers(graphs: seq<Graph>, number: nat, base: nat)
    ensures Numbered(GraphsStmts(graphs, number, base), base, TotalNodes(graphs))
    decreases |graphs|
  {
    if graphs != [] {
      var n := NodeCount(graphs[0]);
      ClustersNumbers(graphs[0], 1, |graphs[0]| > 1, base);
      GraphsNumbers(graphs[1..], number + 1, base + n);
      BoxedGraph(ClustersStmts(graphs[0], 1, |graphs[0]| > 1, base), number,
                 GraphsStmts(graphs[1..], number + 1, base + n),
                 base, n, TotalNodes(graphs[1..]), GraphsStmts(graphs, number, base));
    }
  }

  /** The nodes of the whole file are numbered 1, 2, ..., n: each number once, in increasing order. */
  lemma DotNumbers(graphs: seq<Graph>)
    ensures NodeNumbers(Dot(graphs)) == Range(1, TotalNodes(graphs))
  {
    GraphsNumbers(graphs, 1, 1);
    NumbersOne(OpenFile);
    NumbersOne(Close);
    BoxNumbers([OpenFile], GraphsStmts(graphs, 1, 1), [Close], []);
    assert Dot(graphs) + [] == Dot(graphs);
  }

  /* ---- boxes ---- */

  function Opened(s: Stmt): seq<Stmt>
  {
    if s.OpenFile? || s.OpenGraph? || s.OpenCluster? then [s] else []
  }

  /** The opening statements, in order. */
  function Headings(out: seq<Stmt>): seq<Stmt>
  {
    if out == [] then [] else Opened(out[0]) + Headings(out[1..])
  }

  lemma {:induction false} HeadingsAppend(a: seq<Stmt>, b: seq<Stmt>)
    ensures Headings(a + b) == Headings(a) + Headings(b)
  {
    if a == [] {
      assert a + b == b;
    } else {
      assert (a + b)[1..] == a[1..] + b;
      HeadingsAppend(a[1..], b);
      Assoc(Opened(a[0]), Headings(a[1..]), Headings(b));
    }
  }

  lemma HeadingsOne(s: Stmt)
    ensures Headings([s]) == Opened(s)
  {
    assert [s][1..] == [];
  }

  lemma {:induction false} FlatHeadings(out: seq<Stmt>)
    requires forall s :: s in out ==> s.Node? || s.Edge?
    ensures Headings(out) == []
  {
    if out != [] {
      assert out[0] in out;
      FlatHeadings(out[1..]);
    }
  }

  lemma BoxHeadings(open: seq<Stmt>, body: seq<Stmt>, close: seq<Stmt>, rest: seq<Stmt>)
    ensures Headings(open + body + close + rest)
         == Headings(open) + Headings(body) + Headings(close) + Headings(rest)
  {
    HeadingsAppend(open + body + close, rest);
    HeadingsAppend(open + body, close);
    HeadingsAppend(open, body);
  }

  function ClusterHeadings(n: nat, from: nat): seq<Stmt>
  {
    seq(n, i requires 0 <= i => OpenCluster(from + i))
  }

  ghost predicate Opens(out: seq<Stmt>, headings: seq<Stmt>)
  {
    Headings(out) == headings
  }

  lemma ClusterOpensNone(links: Cluster, base: nat)
    ensures Opens(ClusterStmts(links, base), [])
  {
    NodeStmtsFlat(Declared(links), base);
    EdgeStmtsFlat(links, links, base);
    FlatHeadings(ClusterStmts(links, base));
  }

  lemma BoxedHeadings(body: seq<Stmt>, boxed: bool, number: nat, rest: seq<Stmt>, more: seq<Stmt>)
    requires Opens(body, []) && Opens(rest, more)
    ensures Opens(BoxOpen(boxed, number) + body + BoxClose(boxed) + rest, BoxOpen(boxed, number) + more)
  {
    BoxHeadings(BoxOpen(boxed, number), body, BoxClose(boxed), rest);
    HeadingsOne(OpenCluster(number));
    HeadingsOne(Close);
    assert BoxOpen(boxed, number) + [] + [] == BoxOpen(boxed, number);
  }

  /** What the clusters from `number` on open. */
  function Inner(n: nat, number: nat, boxed: bool): seq<Stmt>
  {
    if boxed then ClusterHeadings(n, number) else []
  }

  lemma InnerStep(n: nat, number: nat, boxed: bool)
    ensures Inner(n + 1, number, boxed) == BoxOpen(boxed, number) + Inner(n, number + 1, boxed)
  {
    assert [OpenCluster(number)] + ClusterHeadings(n, number + 1) == ClusterHeadings(n + 1, number);
  }

  lemma {:induction false} ClustersHeadings(clusters: Graph, number: nat, boxed: bool, base: nat)
    ensures Opens(ClustersStmts(clusters, number, boxed, base), Inner(|clusters|, number, boxed))
    decreases |clusters|
  {
    if clusters != [] {
      var next := base + |Declared(clusters[0])|;
      var rest := ClustersStmts(clusters[1..], number + 1, boxed, next);
      ClusterOpensNone(clusters[0], base);
      ClustersHeadings(clusters[1..], number + 1, boxed, next);
      InnerStep(|clusters| - 1, number, boxed);
      BoxedHeadings(ClusterStmts(clusters[0], base), boxed, number, rest, Inner(|clusters| - 1, number + 1, boxed));
    }
  }

  /** A graph opens its own box, and one box per cluster, numbered from 1, if it has several. */
  function GraphHeadings(number: nat, clusters: nat): seq<Stmt>
  {
    [OpenGraph(number)] + Inner(clusters, 1, clusters > 1)
  }

  function GraphsHeadings(graphs: seq<Graph>, from: nat): seq<seq<Stmt>>
  {
    seq(|graphs|, i requires 0 <= i < |graphs| => GraphHeadings(from + i, |graphs[i]|))
  }

  lemma GraphBoxHeadings(body: seq<Stmt>, number: nat, inner: seq<Stmt>, rest: seq<Stmt>, more: seq<Stmt>)
    requires Opens(body, inner) && Opens(rest, more)
    ensures Opens([OpenGraph(number)] + body + [Close] + rest, [OpenGraph(number)] + inner + more)
  {
    BoxHeadings([OpenGraph(number)], body, [Close], rest);
    HeadingsOne(OpenGraph(number));
    HeadingsOne(Close);
    assert [OpenGraph(number)] + inner + [] == [OpenGraph(number)] + inner;
  }

  lemma GraphsUnfold(graphs: seq<Graph>, number: nat, base: nat, body: seq<Stmt>, rest: seq<Stmt>)
    requires graphs != [] && body == ClustersStmts(graphs[0], 1, |graphs[0]| > 1, base)
    requires rest == GraphsStmts(graphs[1..], number + 1, base + NodeCount(graphs[0]))
    ensures GraphsStmts(graphs, number, base) == [OpenGraph(number)] + body + [Close] + rest
  {
  }

  ghost predicate OpensGraphs(out: seq<Stmt>, graphs: seq<Graph>, number: nat)
  {
    Opens(out, Flatten(GraphsHeadings(graphs, number)))
  }

  lemma NoHeadings(number: nat, base: nat)
    ensures OpensGraphs(GraphsStmts([], number, base), [], number)
  {
  }

  lemma {:induction false} HeadingsOfGraphs(graphs: seq<Graph>, number: nat, base: nat)
    ensures OpensGraphs(GraphsStmts(graphs, number, base), graphs, number)
    decreases |graphs|
  {
    if graphs == [] {
      NoHeadings(number, base);
    } else {
      var g := graphs[0];
      var body := ClustersStmts(g, 1, |g| > 1, base);
      var rest := GraphsStmts(graphs[1..], number + 1, base + NodeCount(g));
      ClustersHeadings(g, 1, |g| > 1, base);
      HeadingsOfGraphs(graphs[1..], number + 1, base + NodeCount(g));
      GraphsUnfold(graphs, number, base, body, rest);
      GraphsStep(graphs, number, GraphsStmts(graphs, number, base), body, rest);
    }
  }

  lemma GraphsStep(graphs: seq<Graph>, number: nat, all: seq<Stmt>, body: seq<Stmt>, rest: seq<Stmt>)
    requires graphs != [] && all == [OpenGraph(number)] + body + [Close] + rest
    requires Opens(body, Inner(|graphs[0]|, 1, |graphs[0]| > 1)) && OpensGraphs(rest, graphs[1..], number + 1)
    ensures OpensGraphs(all, graphs, number)
  {
    FirstHeadings(graphs, number);
    GraphBoxHeadings(body, number, Inner(|graphs[0]|, 1, |graphs[0]| > 1), rest,
                     Flatten(GraphsHeadings(graphs[1..], number + 1)));
  }

  lemma FirstHeadings(graphs: seq<Graph>, number: nat)
    requires graphs != []
    ensures Flatten(GraphsHeadings(graphs, number))
         == GraphHeadings(number, |graphs[0]|) + Flatten(GraphsHeadings(graphs[1..], number + 1))
  {
    var all := GraphsHeadings(graphs, number);
    assert all[0] == GraphHeadings(number, |graphs[0]|);
    assert all[1..] == GraphsHeadings(graphs[1..], number + 1);
  }

  /** The file opens one box per graph, numbered from 1 in order, and inside a graph of several clusters one box
      per cluster, numbered from 1 again; a graph of one cluster has no inner box. */
  lemma DotHeadings(graphs: seq<Graph>)
    ensures Headings(Dot(graphs)) == [OpenFile] + Flatten(GraphsHeadings(graphs, 1))
  {
    HeadingsOfGraphs(graphs, 1, 1);
    HeadingsOne(OpenFile);
    HeadingsOne(Close);
    BoxHeadings([OpenFile], GraphsStmts(graphs, 1, 1), [Close], []);
    assert Dot(graphs) + [] == Dot(graphs);
  }

  /* ---- addresses and edges ---- */

  /** Each declared node is the first endpoint with its address. */
  ghost predicate Firsts(declared: seq<Endpoint>, es: seq<Endpoint>)
  {
    forall k :: 0 <= k < |declared| ==>
      var i := IndexOf(es, declared[k].address);
      i < |es| && es[i] == declared[k]
  }

  ghost predicate Covered(seen: seq<Endpoint>, declared: seq<Endpoint>)
  {
    forall i :: 0 <= i < |seen| ==> IndexOf(declared, seen[i].address) < |declared|
  }

  lemma DeclareStep(declared: seq<Endpoint>, e: Endpoint, rest: seq<Endpoint>)
    ensures Declare(declared, [e] + rest)
         == Declare(if IndexOf(declared, e.address) < |declared| then declared else declared + [e], rest)
  {
    assert ([e] + rest)[1..] == rest;
  }

  lemma {:induction false} FirstsFrom(seen: seq<Endpoint>, declared: seq<Endpoint>, es: seq<Endpoint>,
                                      all: seq<Endpoint>)
    requires Firsts(declared, seen) && Covered(seen, declared) && all == seen + es
    ensures Firsts(Declare(declared, es), all)
    decreases |es|
  {
    if es == [] {
      assert all == seen;
    } else {
      var e, rest := es[0], es[1..];
      assert es == [e] + rest && all == seen + [e] + rest;
      DeclareStep(declared, e, rest);
      if IndexOf(declared, e.address) < |declared| {
        SeenAgain(seen, declared, e);
        FirstsFrom(seen + [e], declared, rest, all);
      } else {
        SeenFirst(seen, declared, e);
        FirstsFrom(seen + [e], declared + [e], rest, all);
      }
    }
  }

  lemma SeenAgain(seen: seq<Endpoint>, declared: seq<Endpoint>, e: Endpoint)
    requires Firsts(declared, seen) && Covered(seen, declared) && IndexOf(declared, e.address) < |declared|
    ensures Firsts(declared, seen + [e]) && Covered(seen + [e], declared)
  {
    SeenEarlier(seen, declared, e);
  }

  lemma FirstsMore(declared: seq<Endpoint>, e: Endpoint, es: seq<Endpoint>)
    requires Firsts(declared, es) && IndexOf(es, e.address) < |es| && es[IndexOf(es, e.address)] == e
    ensures Firsts(declared + [e], es)
  {
  }

  lemma CoveredMore(seen: seq<Endpoint>, declared: seq<Endpoint>, e: Endpoint)
    requires Covered(seen, declared)
    ensures Covered(seen + [e], declared + [e])
  {
    forall i | 0 <= i < |seen| + 1
      ensures IndexOf(declared + [e], (seen + [e])[i].address) < |declared| + 1
    {
      IndexOfAppend(declared, e, (seen + [e])[i].address);
    }
  }

  lemma SeenFirst(seen: seq<Endpoint>, declared: seq<Endpoint>, e: Endpoint)
    requires Firsts(declared, seen) && Covered(seen, declared) && IndexOf(declared, e.address) == |declared|
    ensures Firsts(declared + [e], seen + [e]) && Covered(seen + [e], declared + [e])
  {
    NotSeen(seen, declared, e);
    SeenEarlier(seen, declared, e);
    FirstsMore(declared, e, seen + [e]);
    CoveredMore(seen, declared, e);
  }

  lemma NotSeen(seen: seq<Endpoint>, declared: seq<Endpoint>, e: Endpoint)
    requires Covered(seen, declared) && IndexOf(declared, e.address) == |declared|
    ensures IndexOf(seen + [e], e.address) == |seen|
  {
    IndexOfAppend(seen, e, e.address);
  }

  lemma SeenEarlier(seen: seq<Endpoint>, declared: seq<Endpoint>, e: Endpoint)
    requires Firsts(declared, seen)
    ensures Firsts(declared, seen + [e])
  {
    forall k | 0 <= k < |declared|
      ensures IndexOf(seen + [e], declared[k].address) == IndexOf(seen, declared[k].address)
    {
      IndexOfAppend(seen, e, declared[k].address);
    }
  }

  /** Every node of a cluster carries the name under which its address is met first. */
  lemma NodesAreFirsts(links: Cluster)
    ensures Firsts(Declared(links), Endpoints(links))
  {
    FirstsFrom([], [], Endpoints(links), Endpoints(links));
  }

  lemma {:induction false} DeclareDistinct(declared: seq<Endpoint>, es: seq<Endpoint>)
    requires Distinct(declared)
    ensures Distinct(Declare(declared, es))
    decreases |es|
  {
    if es != [] {
      DeclareDistinct(if IndexOf(declared, es[0].address) < |declared| then declared else declared + [es[0]], es[1..]);
    }
  }

  /** Within a cluster, two endpoints share a node if and only if they share an address. */
  lemma SameNodeIffSameAddress(links: Cluster, base: nat, e: Endpoint, f: Endpoint)
    requires e in Endpoints(links) && f in Endpoints(links)
    ensures NodeOf(links, base, e.address) == NodeOf(links, base, f.address) <==> e.address == f.address
  {
    var declared := Declared(links);
    MemberDeclared(Endpoints(links), e);
    MemberDeclared(Endpoints(links), f);
    IndexOfEqual(declared, e.address, f.address);
  }

  lemma MemberDeclared(es: seq<Endpoint>, e: Endpoint)
    requires e in es
    ensures IndexOf(Declare([], es), e.address) < |Declare([], es)|
  {
    var i :| 0 <= i < |es| && es[i] == e;
    AllDeclared([], es, e.address);
  }

  lemma IndexOfEqual(es: seq<Endpoint>, a: string, b: string)
    requires IndexOf(es, a) < |es| && IndexOf(es, b) < |es|
    ensures IndexOf(es, a) == IndexOf(es, b) <==> a == b
  {
  }

  lemma {:induction false} NodeStmtsAt(declared: seq<Endpoint>, base: nat, i: nat)
    requires i < |declared|
    ensures |NodeStmts(declared, base)| == |declared|
    ensures NodeStmts(declared, base)[i] == Node(base + i, declared[i].name, declared[i].address)
  {
    var k := |declared| - 1;
    if i < k {
      NodeStmtsAt(declared[..k], base, i);
    } else if k > 0 {
      NodeStmtsAt(declared[..k], base, 0);
    } else {
      assert declared[..k] == [];
    }
  }

  lemma {:induction false} EdgeStmtsAt(links: Cluster, all: Cluster, base: nat, i: nat)
    requires i < |links|
    ensures |EdgeStmts(links, all, base)| == |links|
    ensures EdgeStmts(links, all, base)[i]
         == Edge(NodeOf(all, base, links[i].source.address), NodeOf(all, base, links[i].dest.address),
                 links[i].source.pin, links[i].dest.pin)
  {
    if i > 0 {
      EdgeStmtsAt(links[1..], all, base, i - 1);
    } else if |links| > 1 {
      EdgeStmtsAt(links[1..], all, base, 0);
    } else {
      assert links[1..] == [];
    }
  }

  /** The i-th edge of a cluster joins two nodes declared before it in the same cluster, which carry the
      addresses of the i-th link. */
  lemma EdgeNamesItsNodes(links: Cluster, base: nat, i: nat) returns (s: nat, d: nat)
    requires i < |links|
    ensures var stmts, n := ClusterStmts(links, base), |Declared(links)|;
            && s < n && d < n && |stmts| == n + |links|
            && stmts[s].Node? && stmts[s].address == links[i].source.address
            && stmts[d].Node? && stmts[d].address == links[i].dest.address
            && stmts[n + i] == Edge(stmts[s].number, stmts[d].number, links[i].source.pin, links[i].dest.pin)
  {
    var declared := Declared(links);
    LinkDeclared(links, i);
    s, d := IndexOf(declared, links[i].source.address), IndexOf(declared, links[i].dest.address);
    NodeStmtsAt(declared, base, s);
    NodeStmtsAt(declared, base, d);
    EdgeStmtsAt(links, links, base, i);
  }

  /* ---- braces ---- */

  function Depth(out: seq<Stmt>): int
  {
    if out == [] then 0
    else
      var last := out[|out| - 1];
      Depth(out[..|out| - 1])
      + (if last.OpenFile? || last.OpenGraph? || last.OpenCluster? then 1 else if last.Close? then -1 else 0)
  }

  /** Braces nest: no prefix closes more than it opened, and the whole closes all. */
  ghost predicate Balanced(out: seq<Stmt>)
  {
    Depth(out) == 0 && forall k :: 0 <= k <= |out| ==> Depth(out[..k]) >= 0
  }

  lemma {:induction false} DepthAppend(a: seq<Stmt>, b: seq<Stmt>)
    ensures Depth(a + b) == Depth(a) + Depth(b)
    decreases |b|
  {
    if b == [] {
      assert a + b == a;
    } else {
      assert (a + b)[..|a + b| - 1] == a + b[..|b| - 1];
      DepthAppend(a, b[..|b| - 1]);
    }
  }

  lemma BalancedAppend(a: seq<Stmt>, b: seq<Stmt>)
    requires Balanced(a) && Balanced(b)
    ensures Balanced(a + b)
  {
    DepthAppend(a, b);
    forall k | 0 <= k <= |a + b|
      ensures Depth((a + b)[..k]) >= 0
    {
      if k <= |a| {
        assert (a + b)[..k] == a[..k];
      } else {
        assert (a + b)[..k] == a + b[..k - |a|];
        DepthAppend(a, b[..k - |a|]);
      }
    }
  }

  lemma DepthOne(s: Stmt)
    ensures Depth([s]) == if s.OpenFile? || s.OpenGraph? || s.OpenCluster? then 1 else if s.Close? then -1 else 0
  {
    assert [s][..0] == [];
  }

  lemma BalancedBox(open: Stmt, body: seq<Stmt>)
    requires (open.OpenFile? || open.OpenGraph? || open.OpenCluster?) && Balanced(body)
    ensures Balanced([open] + body + [Close])
  {
    var all := [open] + body + [Close];
    DepthOne(open);
    DepthOne(Close);
    DepthAppend([open], body);
    DepthAppend([open] + body, [Close]);
    forall k | 0 <= k <= |all|
      ensures Depth(all[..k]) >= 0
    {
      if k == 0 {
        assert all[..k] == [];
      } else if k <= |body| + 1 {
        assert all[..k] == [open] + body[..k - 1];
        DepthAppend([open], body[..k - 1]);
      } else {
        assert all[..k] == all;
      }
    }
  }

  lemma {:induction false} FlatBalanced(out: seq<Stmt>)
    requires forall s :: s in out ==> s.Node? || s.Edge?
    ensures Balanced(out)
  {
    forall k | 0 <= k <= |out| ensures Depth(out[..k]) == 0 { FlatDepth(out[..k]); }
    assert out[..|out|] == out;
  }

  lemma {:induction false} FlatDepth(out: seq<Stmt>)
    requires forall s :: s in out ==> s.Node? || s.Edge?
    ensures Depth(out) == 0
  {
    if out != [] {
      assert out[|out| - 1] in out;
      FlatDepth(out[..|out| - 1]);
    }
  }

  lemma {:induction false} NodeStmtsFlat(declared: seq<Endpoint>, base: nat)
    ensures forall s :: s in NodeStmts(declared, base) ==> s.Node?
  {
    if declared != [] {
      NodeStmtsFlat(declared[..|declared| - 1], base);
    }
  }

  lemma {:induction false} EdgeStmtsFlat(links: Cluster, all: Cluster, base: nat)
    ensures forall s :: s in EdgeStmts(links, all, base) ==> s.Edge?
  {
    if links != [] {
      EdgeStmtsFlat(links[1..], all, base);
    }
  }

  lemma ClusterBalanced(links: Cluster, number: nat, boxed: bool, base: nat)
    ensures Balanced(BoxOpen(boxed, number) + ClusterStmts(links, base)
                     + BoxClose(boxed))
  {
    var body := ClusterStmts(links, base);
    NodeStmtsFlat(Declared(links), base);
    EdgeStmtsFlat(links, links, base);
    FlatBalanced(body);
    if boxed {
      BalancedBox(OpenCluster(number), body);
    } else {
      assert [] + body + [] == body;
    }
  }

  lemma {:induction false} ClustersBalanced(clusters: Graph, number: nat, boxed: bool, base: nat)
    ensures Balanced(ClustersStmts(clusters, number, boxed, base))
    decreases |clusters|
  {
    if clusters != [] {
      var n := |Declared(clusters[0])|;
      ClusterBalanced(clusters[0], number, boxed, base);
      ClustersBalanced(clusters[1..], number + 1, boxed, base + n);
      BalancedAppend(BoxOpen(boxed, number) + ClusterStmts(clusters[0], base)
                     + BoxClose(boxed), ClustersStmts(clusters[1..], number + 1, boxed, base + n));
    }
  }

  lemma {:induction false} GraphsBalanced(graphs: seq<Graph>, number: nat, base: nat)
    ensures Balanced(GraphsStmts(graphs, number, base))
    decreases |graphs|
  {
    if graphs != [] {
      var body, rest := ClustersStmts(graphs[0], 1, |graphs[0]| > 1, base),
                        GraphsStmts(graphs[1..], number + 1, base + NodeCount(graphs[0]));
      ClustersBalanced(graphs[0], 1, |graphs[0]| > 1, base);
      BalancedBox(OpenGraph(number), body);
      GraphsBalanced(graphs[1..], number + 1, base + NodeCount(graphs[0]));
      BalancedAppend([OpenGraph(number)] + body + [Close], rest);
    }
  }

  /** The braces of the whole file are balanced, for every graphs value. */
  lemma DotBalanced(graphs: seq<Graph>)
    ensures Balanced(Dot(graphs))
  {
    GraphsBalanced(graphs, 1, 1);
    BalancedBox(OpenFile, GraphsStmts(graphs, 1, 1));
  }
}
