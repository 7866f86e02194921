/** Exporting a graph as nodes plus edges, and building a graph back from that. */
module Snapshots {
  import opened Sequences
  import opened Graphs

  datatype Snapshot = Snapshot(nodes: seq<string>, edges: seq<(nat, nat)>)

  function RowEdges(from: nat, row: seq<nat>): seq<(nat, nat)> {
    if row == [] then [] else RowEdges(from, row[..|row| - 1]) + [(from, row[|row| - 1])]
  }

  /** The edges leaving the first k nodes, in adjacency order. */
  function EdgeList(adj: Adjacency, k: nat): seq<(nat, nat)>
    requires k <= |adj|
  {
    if k == 0 then [] else EdgeList(adj, k - 1) + RowEdges(k - 1, adj[k - 1])
  }

  function Export(g: Graph): Snapshot {
    Snapshot(g.nodes, EdgeList(g.adj, |g.adj|))
  }

  function AddNodes(g: Graph, ids: seq<string>): Graph {
    if ids == [] then g else AddNodes(g, ids[..|ids| - 1]).AddNode(ids[|ids| - 1])
  }

  function AddEdges(g: Graph, edges: seq<(nat, nat)>): (r: Graph)
    requires g.Shaped()
    ensures r.Shaped() && r.nodes == g.nodes && r.index == g.index
  {
    if edges == [] then g
    else
      var e := edges[|edges| - 1];
      AddEdges(g, edges[..|edges| - 1]).AddEdge(e.0, e.1)
  }

  lemma {:induction false} AddEdgesValid(g: Graph, edges: seq<(nat, nat)>)
    requires g.Valid()
    ensures AddEdges(g, edges).Valid()
  {
    if edges != [] {
      var e := edges[|edges| - 1];
      AddEdgesValid(g, edges[..|edges| - 1]);
      AddEdgeKeeps(AddEdges(g, edges[..|edges| - 1]), e.0, e.1);
    }
  }

  lemma {:induction false} AddNodesValid(ids: seq<string>)
    ensures AddNodes(EMPTY, ids).Valid()
    ensures AddNodes(EMPTY, ids).edgeCount == 0
  {
    if ids != [] {
      AddNodesValid(ids[..|ids| - 1]);
      AddNodeKeeps(AddNodes(EMPTY, ids[..|ids| - 1]), ids[|ids| - 1]);
    }
  }

  ghost function Import(s: Snapshot): (g: Graph)
    ensures g.Valid()
  {
    AddNodesValid(s.nodes);
    AddEdgesValid(AddNodes(EMPTY, s.nodes), s.edges);
    AddEdges(AddNodes(EMPTY, s.nodes), s.edges)
  }

  ghost function RoundTrip(g: Graph): Graph {
    Import(Export(g))
  }

  // ----- what a round trip rebuilds

  /** The nodes below k that depend on v, in ascending order. */
  ghost function SourcesOf(adj: Adjacency, v: nat, k: nat): (r: seq<nat>)
    ensures Ascending(r)
    ensures forall u: nat :: u in r <==> u < k && Edge(adj, u, v)
  {
    if k == 0 then []
    else
      var below := SourcesOf(adj, v, k - 1);
      assert forall i :: 0 <= i < |below| ==> below[i] in below;
      if Edge(adj, k - 1, v) then below + [k - 1] else below
  }

  /** The forward list of u after the edges of nodes below k and the first m of node k. */
  ghost function PartialRow(adj: Adjacency, u: nat, k: nat, m: nat): seq<nat> {
    if u >= |adj| || u > k then [] else if u == k && m < |adj[u]| then adj[u][..m] else adj[u]
  }

  /** The reverse list of v after those edges. */
  ghost function PartialSources(adj: Adjacency, v: nat, k: nat, m: nat): seq<nat> {
    if v in PartialRow(adj, k, k, m) then SourcesOf(adj, v, k) + [k] else SourcesOf(adj, v, k)
  }

  ghost function PartialAdj(adj: Adjacency, k: nat, m: nat): Adjacency {
    seq(|adj|, u requires 0 <= u < |adj| => PartialRow(adj, u, k, m))
  }

  ghost function PartialRev(adj: Adjacency, k: nat, m: nat): Adjacency {
    seq(|adj|, v requires 0 <= v < |adj| => PartialSources(adj, v, k, m))
  }

  /** Adding distinct ids to an empty graph keeps them in order and adds no neighbours. */
  lemma {:induction false} NodesRebuilt(ids: seq<string>)
    requires Distinct(ids)
    ensures AddNodes(EMPTY, ids).Valid()
    ensures AddNodes(EMPTY, ids).nodes == ids
    ensures AddNodes(EMPTY, ids).adj == Blank(|ids|) && AddNodes(EMPTY, ids).rev == Blank(|ids|)
  {
    if ids != [] {
      var front, id := ids[..|ids| - 1], ids[|ids| - 1];
      NodesRebuilt(front);
      var before := AddNodes(EMPTY, front);
      assert id !in before.index;
      assert AddNodes(EMPTY, ids) == before.AddNode(id);
      AddNodeKeeps(before, id);
      assert front + [id] == ids;
    }
  }

  ghost function Blank(n: nat): Adjacency {
    seq(n, _ => [])
  }

  lemma SameIndex(g: Graph, h: Graph)
    requires g.IndexInverts() && h.IndexInverts() && g.nodes == h.nodes
    ensures g.index == h.index
  {
  }

  /** Rows that name existing nodes only, each at most once. */
  ghost predicate ProperRows(adj: Adjacency) {
    InRange(adj) && forall u :: 0 <= u < |adj| ==> Distinct(adj[u])
  }

  /** One more edge of node k. */
  lemma EdgeRebuilt(adj: Adjacency, before: Graph, k: nat, m: nat)
    requires ProperRows(adj) && before.Shaped() && |before.nodes| == |adj| && k < |adj| && m < |adj[k]|
    requires before.adj == PartialAdj(adj, k, m) && before.rev == PartialRev(adj, k, m)
    ensures before.AddEdge(k, adj[k][m]).adj == PartialAdj(adj, k, m + 1)
    ensures before.AddEdge(k, adj[k][m]).rev == PartialRev(adj, k, m + 1)
  {
    var to := adj[k][m];
    assert Edge(adj, k, to);
    var row := adj[k];
    assert row[..m + 1] == row[..m] + [to];
    assert PartialRow(adj, k, k, m) == row[..m] && PartialRow(adj, k, k, m + 1) == row[..m + 1];
    assert to !in row[..m];
    assert forall v :: v in row[..m + 1] <==> v in row[..m] || v == to;
  }

  lemma RowRebuilt(adj: Adjacency, k: nat)
    requires k < |adj|
    ensures PartialAdj(adj, k + 1, 0) == PartialAdj(adj, k, |adj[k]|)
    ensures PartialRev(adj, k + 1, 0) == PartialRev(adj, k, |adj[k]|)
  {
    assert adj[k][..|adj[k]|] == adj[k];
    forall v: nat | v < |adj|
      ensures PartialRev(adj, k + 1, 0)[v] == PartialRev(adj, k, |adj[k]|)[v]
    {
      assert PartialRev(adj, k + 1, 0)[v] == SourcesOf(adj, v, k + 1);
    }
  }

  lemma AddEdgesPush(g: Graph, edges: seq<(nat, nat)>, e: (nat, nat))
    requires g.Shaped()
    ensures AddEdges(g, edges + [e]) == AddEdges(g, edges).AddEdge(e.0, e.1)
  {
  }

  ghost function EdgesSoFar(adj: Adjacency, k: nat, m: nat): seq<(nat, nat)>
    requires InRow(adj, k, m)
  {
    EdgeList(adj, k) + (if k < |adj| then RowEdges(k, adj[k][..m]) else [])
  }

  lemma SplitEdge(adj: Adjacency, k: nat, m: nat)
    requires k < |adj| && m < |adj[k]|
    ensures EdgesSoFar(adj, k, m + 1) == EdgesSoFar(adj, k, m) + [(k, adj[k][m])]
  {
    assert adj[k][..m + 1][..m] == adj[k][..m];
  }

  lemma SplitRow(adj: Adjacency, k: nat)
    requires k < |adj|
    ensures EdgesSoFar(adj, k + 1, 0) == EdgesSoFar(adj, k, |adj[k]|)
  {
    assert adj[k][..|adj[k]|] == adj[k];
  }

  ghost predicate InRow(adj: Adjacency, k: nat, m: nat) {
    k <= |adj| && (if k < |adj| then m <= |adj[k]| else m == 0)
  }

  /** Replaying the edges up to the m-th of node k onto a blank graph gives the partial lists. */
  ghost predicate Rebuilt(adj: Adjacency, base: Graph, k: nat, m: nat)
  {
    && base.Shaped() && InRow(adj, k, m)
    && var r := AddEdges(base, EdgesSoFar(adj, k, m));
       r.adj == PartialAdj(adj, k, m) && r.rev == PartialRev(adj, k, m)
  }

  lemma EdgeReplayed(adj: Adjacency, base: Graph, k: nat, m: nat)
    requires ProperRows(adj) && base.Shaped() && |base.nodes| == |adj|
    requires k < |adj| && m < |adj[k]| && Rebuilt(adj, base, k, m)
    ensures Rebuilt(adj, base, k, m + 1)
  {
    SplitEdge(adj, k, m);
    var front := EdgesSoFar(adj, k, m);
    AddEdgesPush(base, front, (k, adj[k][m]));
    EdgeRebuilt(adj, AddEdges(base, front), k, m);
  }

  lemma RowReplayed(adj: Adjacency, base: Graph, k: nat)
    requires ProperRows(adj) && base.Shaped() && |base.nodes| == |adj|
    requires k < |adj| && Rebuilt(adj, base, k, 0)
    ensures Rebuilt(adj, base, k, |adj[k]|)
  {
    for m := 0 to |adj[k]|
      invariant Rebuilt(adj, base, k, m)
    {
      EdgeReplayed(adj, base, k, m);
    }
  }

  lemma NothingReplayed(adj: Adjacency, base: Graph)
    requires base.Shaped() && base.adj == Blank(|adj|) && base.rev == Blank(|adj|)
    ensures Rebuilt(adj, base, 0, 0)
  {
  }

  lemma NextRowReplayed(adj: Adjacency, base: Graph, k: nat)
    requires ProperRows(adj) && base.Shaped() && |base.nodes| == |adj|
    requires k < |adj| && Rebuilt(adj, base, k, 0)
    ensures Rebuilt(adj, base, k + 1, 0)
  {
    RowReplayed(adj, base, k);
    SplitRow(adj, k);
    RowRebuilt(adj, k);
  }

  lemma EdgesReplayed(adj: Adjacency, base: Graph)
    requires ProperRows(adj) && base.Shaped() && |base.nodes| == |adj|
    requires Rebuilt(adj, base, 0, 0)
    ensures Rebuilt(adj, base, |adj|, 0)
  {
    for k := 0 to |adj|
      invariant Rebuilt(adj, base, k, 0)
    {
      NextRowReplayed(adj, base, k);
    }
  }

  lemma IndexesDistinct(g: Graph)
    requires g.IndexInverts()
    ensures Distinct(g.nodes)
  {
  }

  lemma FullLists(adj: Adjacency)
    ensures EdgesSoFar(adj, |adj|, 0) == EdgeList(adj, |adj|)
    ensures PartialAdj(adj, |adj|, 0) == adj
  {
  }

  /** A round trip keeps nodes, index, forward lists and edge count, and rebuilds every reverse list. */
  lemma RoundTripRebuilds(g: Graph)
    requires g.Valid()
    ensures RoundTrip(g) == g.(rev := PartialRev(g.adj, |g.adj|, 0))
  {
    IndexesDistinct(g);
    NodesRebuilt(g.nodes);
    NothingReplayed(g.adj, AddNodes(EMPTY, g.nodes));
    EdgesReplayed(g.adj, AddNodes(EMPTY, g.nodes));
    FullLists(g.adj);
    SameIndex(g, RoundTrip(g));
  }

  lemma SourcesPermuteReverse(g: Graph, v: nat)
    requires g.Valid() && v < |g.rev|
    ensures multiset(SourcesOf(g.adj, v, |g.adj|)) == multiset(g.rev[v])
  {
    var sources := SourcesOf(g.adj, v, |g.adj|);
    forall u: nat ensures u in sources <==> u in g.rev[v] {
      assert Edge(g.adj, u, v) <==> Edge(g.rev, v, u);
    }
    DistinctPermutation(sources, g.rev[v]);
  }

  /** The rebuilt reverse lists are ascending permutations of the original ones. */
  lemma RoundTripSortsReverse(g: Graph, v: nat)
    requires g.Valid() && v < |g.rev|
    ensures |RoundTrip(g).rev| == |g.rev|
    ensures Ascending(RoundTrip(g).rev[v])
    ensures multiset(RoundTrip(g).rev[v]) == multiset(g.rev[v])
  {
    RoundTripRebuilds(g);
    SourcesPermuteReverse(g, v);
    assert PartialRev(g.adj, |g.adj|, 0)[v] == SourcesOf(g.adj, v, |g.adj|);
  }

  lemma RoundTripTwice(g: Graph)
    requires g.Valid()
    ensures RoundTrip(RoundTrip(g)) == RoundTrip(g)
  {
    RoundTripRebuilds(g);
    RoundTripRebuilds(RoundTrip(g));
  }

  lemma AscendingSourcesKept(g: Graph, v: nat)
    requires g.Valid() && v < |g.rev| && Ascending(g.rev[v])
    ensures |RoundTrip(g).rev| == |g.rev| && RoundTrip(g).rev[v] == g.rev[v]
  {
    RoundTripSortsReverse(g, v);
    var sources := RoundTrip(g).rev[v];
    assert forall u :: u in sources <==> u in multiset(sources);
    assert forall u :: u in g.rev[v] <==> u in multiset(g.rev[v]);
    assert |multiset(sources)| == |multiset(g.rev[v])|;
    AscendingUnique(sources, g.rev[v]);
  }

  /** The round trip is lossless exactly when every reverse list was already in ascending order. */
  lemma RoundTripLossless(g: Graph)
    requires g.Valid()
    ensures RoundTrip(g) == g <==> forall v :: 0 <= v < |g.rev| ==> Ascending(g.rev[v])
  {
    RoundTripRebuilds(g);
    if forall v :: 0 <= v < |g.rev| ==> Ascending(g.rev[v]) {
      forall v: nat | v < |g.rev| ensures RoundTrip(g).rev[v] == g.rev[v] {
        AscendingSourcesKept(g, v);
      }
      assert RoundTrip(g).rev == g.rev;
    } else {
      var v :| 0 <= v < |g.rev| && !Ascending(g.rev[v]);
      RoundTripSortsReverse(g, v);
    }
  }

  // ----- the operations on a graph object

  method EdgesVec(graph: DiGraph) returns (edges: seq<(nat, nat)>)
    requires graph.Valid()
    ensures edges == EdgeList(graph.adj, |graph.adj|)
  {
    edges := [];
    for from := 0 to |graph.adj|
      invariant edges == EdgeList(graph.adj, from)
    {
      edges := edges + RowEdges(from, graph.adj[from]);
    }
  }

  method ToSnapshot(graph: DiGraph) returns (s: Snapshot)
    requires graph.Valid()
    ensures s == Export(graph.View())
  {
    var edges := EdgesVec(graph);
    s := Snapshot(graph.nodes, edges);
  }

  method ReplayNodes(graph: DiGraph, ids: seq<string>)
    requires graph.Valid()
    modifies graph
    ensures graph.Valid() && graph.View() == AddNodes(old(graph.View()), ids)
  {
    for i := 0 to |ids|
      invariant graph.Valid() && graph.View() == AddNodes(old(graph.View()), ids[..i])
    {
      assert ids[..i + 1][..i] == ids[..i];
      var _ := graph.AddNode(ids[i]);
    }
    assert ids[..|ids|] == ids;
  }

  method ReplayEdges(graph: DiGraph, edges: seq<(nat, nat)>)
    requires graph.Valid()
    modifies graph
    ensures graph.Valid() && graph.View() == AddEdges(old(graph.View()), edges)
  {
    for i := 0 to |edges|
      invariant graph.Valid() && graph.View() == AddEdges(old(graph.View()), edges[..i])
    {
      assert edges[..i + 1] == edges[..i] + [edges[i]];
      AddEdgesPush(old(graph.View()), edges[..i], edges[i]);
      graph.AddEdge(edges[i].0, edges[i].1);
    }
    assert edges[..|edges|] == edges;
  }

  method FromSnapshot(s: Snapshot) returns (graph: DiGraph)
    ensures fresh(graph) && graph.Valid() && graph.View() == Import(s)
  {
    graph := new DiGraph();
    ReplayNodes(graph, s.nodes);
    ReplayEdges(graph, s.edges);
  }
}
