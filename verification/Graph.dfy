/** The dependency graph: an edge u -> v says that u depends on v. */
module Graphs {
  import opened Sequences

  type Adjacency = seq<seq<nat>>

  ghost predicate Edge(adj: Adjacency, u: nat, v: nat) {
    u < |adj| && v in adj[u]
  }

  ghost predicate InRange(adj: Adjacency) {
    forall u: nat, v: nat :: Edge(adj, u, v) ==> v < |adj|
  }

  ghost predicate Transposed(adj: Adjacency, rev: Adjacency) {
    |adj| == |rev| && forall u: nat, v: nat :: Edge(adj, u, v) <==> Edge(rev, v, u)
  }

  /** The number of edges listed in an adjacency. */
  function Total(adj: Adjacency): nat {
    if adj == [] then 0 else Total(adj[..|adj| - 1]) + |adj[|adj| - 1]|
  }

  lemma {:induction false} TotalPush(adj: Adjacency, u: nat, v: nat)
    requires u < |adj|
    ensures Total(adj[u := adj[u] + [v]]) == Total(adj) + 1
  {
    var next := adj[u := adj[u] + [v]];
    var last := |adj| - 1;
    if u == last {
      assert next[..last] == adj[..last];
    } else {
      TotalPush(adj[..last], u, v);
      assert next[..last] == adj[..last][u := adj[..last][u] + [v]];
    }
  }

  lemma TotalGrow(adj: Adjacency)
    ensures Total(adj + [[]]) == Total(adj)
  {
  }

  lemma EdgesGrow(adj: Adjacency)
    ensures forall u: nat, v: nat :: Edge(adj + [[]], u, v) <==> Edge(adj, u, v)
  {
  }

  lemma RowsGrow(adj: Adjacency)
    requires forall u :: 0 <= u < |adj| ==> Distinct(adj[u])
    ensures forall u :: 0 <= u < |adj + [[]]| ==> Distinct((adj + [[]])[u])
  {
  }

  /** The value of a graph object: its five fields. */
  datatype Graph = Graph(
    nodes: seq<string>, index: map<string, nat>, adj: Adjacency, rev: Adjacency, edgeCount: nat)
  {
    ghost predicate Valid() {
      && IndexInverts()
      && |adj| == |nodes|
      && InRange(adj)
      && Transposed(adj, rev)
      && (forall u :: 0 <= u < |adj| ==> Distinct(adj[u]))
      && (forall u :: 0 <= u < |rev| ==> Distinct(rev[u]))
      && edgeCount == Total(adj) == Total(rev)
    }

    ghost predicate IndexInverts() {
      && (forall i :: 0 <= i < |nodes| ==> nodes[i] in index && index[nodes[i]] == i)
      && (forall id :: id in index ==> index[id] < |nodes| && nodes[index[id]] == id)
    }

    function AddNode(id: string): Graph {
      if id in index then this
      else Graph(nodes + [id], index[id := |nodes|], adj + [[]], rev + [[]], edgeCount)
    }

    predicate Shaped() {
      |adj| == |rev| == |nodes|
    }

    function AddEdge(from: nat, to: nat): Graph
      requires Shaped()
    {
      if from >= |nodes| || to >= |nodes| || to in adj[from] then this
      else this.(adj := adj[from := adj[from] + [to]],
                 rev := rev[to := rev[to] + [from]],
                 edgeCount := edgeCount + 1)
    }
  }

  const EMPTY := Graph([], map[], [], [], 0)

  datatype Operation = NodeAdded(id: string) | EdgeAdded(from: nat, to: nat)

  ghost function Apply(g: Graph, op: Operation): Graph
    requires g.Valid()
  {
    match op
    case NodeAdded(id) => g.AddNode(id)
    case EdgeAdded(from, to) => g.AddEdge(from, to)
  }

  /** What adding a node does: earlier indices and all edges stay, and the id is found afterwards. */
  lemma AddNodeKeeps(g: Graph, id: string)
    requires g.Valid()
    ensures g.AddNode(id).Valid()
    ensures id in g.AddNode(id).index && g.nodes <= g.AddNode(id).nodes
    ensures forall known :: known in g.index ==>
              known in g.AddNode(id).index && g.AddNode(id).index[known] == g.index[known]
    ensures |g.AddNode(id).nodes| == |g.nodes| + (if id in g.index then 0 else 1)
    ensures forall u: nat, v: nat :: Edge(g.AddNode(id).adj, u, v) <==> Edge(g.adj, u, v)
  {
    if id !in g.index {
      TotalGrow(g.adj);
      TotalGrow(g.rev);
      EdgesGrow(g.adj);
      EdgesGrow(g.rev);
      RowsGrow(g.adj);
      RowsGrow(g.rev);
    }
  }

  /** What adding an edge does: exactly one edge more, and only when it is in range. */
  lemma AddEdgeKeeps(g: Graph, from: nat, to: nat)
    requires g.Valid()
    ensures g.AddEdge(from, to).Valid()
    ensures g.AddEdge(from, to).nodes == g.nodes
    ensures forall u: nat, v: nat :: Edge(g.AddEdge(from, to).adj, u, v)
              <==> Edge(g.adj, u, v) || (u == from < |g.nodes| && v == to < |g.nodes|)
  {
    var next := g.AddEdge(from, to);
    if from < |g.nodes| && to < |g.nodes| && to !in g.adj[from] {
      TotalPush(g.adj, from, to);
      TotalPush(g.rev, to, from);
      forall u: nat, v: nat ensures Edge(next.adj, u, v) <==> Edge(g.adj, u, v) || (u == from && v == to) {}
      forall u: nat, v: nat ensures Edge(next.rev, v, u) <==> Edge(g.rev, v, u) || (u == from && v == to) {}
      assert !Edge(g.adj, from, to) && !Edge(g.rev, to, from);
    }
  }

  /** Every graph that adds can build. */
  ghost function Build(ops: seq<Operation>): (g: Graph)
    ensures g.Valid()
  {
    if ops == [] then EMPTY
    else
      var before := Build(ops[..|ops| - 1]);
      var op := ops[|ops| - 1];
      assert Apply(before, op).Valid() by { ApplyKeeps(before, op); }
      Apply(before, op)
  }

  lemma ApplyKeeps(g: Graph, op: Operation)
    requires g.Valid()
    ensures Apply(g, op).Valid()
  {
    match op
    case NodeAdded(id) => AddNodeKeeps(g, id);
    case EdgeAdded(from, to) => AddEdgeKeeps(g, from, to);
  }

  class DiGraph {
    var nodes: seq<string>
    var nodeIndex: map<string, nat>
    var adj: Adjacency
    var revAdj: Adjacency
    var edgeCount: nat

    function View(): Graph
      reads this
    {
      Graph(nodes, nodeIndex, adj, revAdj, edgeCount)
    }

    ghost predicate Valid()
      reads this
    {
      View().Valid()
    }

    constructor ()
      ensures Valid() && View() == EMPTY
    {
      nodes, nodeIndex, adj, revAdj, edgeCount := [], map[], [], [], 0;
    }

    method AddNode(id: string) returns (idx: nat)
      requires Valid()
      modifies this
      ensures Valid() && View() == old(View()).AddNode(id)
      ensures idx < |nodes| && nodes[idx] == id
      ensures id in old(nodeIndex) ==> idx == old(nodeIndex)[id]
    {
      AddNodeKeeps(View(), id);
      if id in nodeIndex {
        return nodeIndex[id];
      }
      idx := |nodes|;
      nodes := nodes + [id];
      nodeIndex := nodeIndex[id := idx];
      adj := adj + [[]];
      revAdj := revAdj + [[]];
    }

    method AddEdge(from: nat, to: nat)
      requires Valid()
      modifies this
      ensures Valid() && View() == old(View()).AddEdge(from, to)
    {
      AddEdgeKeeps(View(), from, to);
      if from >= |nodes| || to >= |nodes| {
        return;
      }
      if to in adj[from] {
        return;
      }
      adj := adj[from := adj[from] + [to]];
      revAdj := revAdj[to := revAdj[to] + [from]];
      edgeCount := edgeCount + 1;
    }

    function Len(): nat
      reads this
    {
      |nodes|
    }

    function PredecessorsSlice(node: nat): seq<nat>
      reads this
    {
      if node < |revAdj| then revAdj[node] else []
    }
  }
}
