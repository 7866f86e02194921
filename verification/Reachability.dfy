/** Walks, distances, and the breadth-first searches over a graph. */
module Reachability {
  import opened Sequences
  import opened Graphs

  ghost predicate Walk(adj: Adjacency, p: seq<nat>) {
    |p| > 0 && p[0] < |adj| && forall i :: 0 <= i < |p| - 1 ==> Edge(adj, p[i], p[i + 1])
  }

  ghost predicate WalkBetween(adj: Adjacency, p: seq<nat>, from: nat, to: nat) {
    Walk(adj, p) && p[0] == from && p[|p| - 1] == to
  }

  ghost predicate Reaches(adj: Adjacency, from: nat, to: nat) {
    exists p :: WalkBetween(adj, p, from, to)
  }

  /** Some walk of at most k edges leads from one node to the other. */
  ghost predicate Within(adj: Adjacency, from: nat, to: nat, k: int) {
    exists p :: WalkBetween(adj, p, from, to) && |p| - 1 <= k
  }

  /** The length of a shortest walk. */
  ghost function Distance(adj: Adjacency, from: nat, to: nat): (d: nat)
    requires Reaches(adj, from, to)
    ensures Within(adj, from, to, d)
    ensures forall k :: k < d ==> !Within(adj, from, to, k)
  {
    var p :| WalkBetween(adj, p, from, to);
    LeastWithin(adj, from, to, |p| - 1)
  }

  ghost function LeastWithin(adj: Adjacency, from: nat, to: nat, k: nat): (d: nat)
    requires Within(adj, from, to, k)
    ensures Within(adj, from, to, d)
    ensures forall j :: j < d ==> !Within(adj, from, to, j)
  {
    if k > 0 && Within(adj, from, to, k - 1) then LeastWithin(adj, from, to, k - 1)
    else
      assert forall j :: j < k ==> !Within(adj, from, to, j) by { NotCloser(adj, from, to, k); }
      k
  }

  lemma NotCloser(adj: Adjacency, from: nat, to: nat, k: nat)
    requires !Within(adj, from, to, k - 1)
    ensures forall j :: j < k ==> !Within(adj, from, to, j)
  {
  }

  lemma {:induction false} WalkInRange(adj: Adjacency, p: seq<nat>)
    requires InRange(adj) && Walk(adj, p)
    ensures p[|p| - 1] < |adj|
  {
    if |p| > 1 {
      assert Edge(adj, p[|p| - 2], p[|p| - 1]);
    }
  }

  lemma StepFurther(adj: Adjacency, from: nat, v: nat, w: nat, k: nat)
    requires Within(adj, from, v, k) && Edge(adj, v, w)
    ensures Within(adj, from, w, k + 1)
  {
    var p :| WalkBetween(adj, p, from, v) && |p| - 1 <= k;
    assert WalkBetween(adj, p + [w], from, w);
  }

  lemma StepBack(adj: Adjacency, from: nat, w: nat, k: nat) returns (v: nat)
    requires Within(adj, from, w, k + 1) && w != from
    ensures Within(adj, from, v, k) && Edge(adj, v, w)
  {
    var p :| WalkBetween(adj, p, from, w) && |p| - 1 <= k + 1;
    v := p[|p| - 2];
    assert WalkBetween(adj, p[..|p| - 1], from, v);
  }

  /** A set that holds the start and is closed under edges holds everything reachable. */
  lemma {:induction false} ClosedUnderEdges(adj: Adjacency, from: nat, to: nat, S: set<nat>, p: seq<nat>)
    requires WalkBetween(adj, p, from, to)
    requires from in S && forall v: nat, w: nat :: v in S && Edge(adj, v, w) ==> w in S
    ensures to in S
    decreases |p|
  {
    if |p| > 1 {
      assert Edge(adj, p[|p| - 2], p[|p| - 1]);
      ClosedUnderEdges(adj, from, p[|p| - 2], S, p[..|p| - 1]);
    }
  }

  /** Following dependencies forwards is the reverse of following dependents backwards. */
  lemma ReachesReversed(adj: Adjacency, rev: Adjacency, u: nat, v: nat)
    requires InRange(adj) && Transposed(adj, rev)
    ensures Reaches(adj, u, v) <==> Reaches(rev, v, u)
  {
    if Reaches(adj, u, v) {
      var p :| WalkBetween(adj, p, u, v);
      ReversedWalk(adj, rev, p, u, v);
    }
    if Reaches(rev, v, u) {
      var p :| WalkBetween(rev, p, v, u);
      ReversedWalk(rev, adj, p, v, u);
    }
  }

  lemma ReversedWalk(adj: Adjacency, rev: Adjacency, p: seq<nat>, u: nat, v: nat)
    requires Transposed(adj, rev) && WalkBetween(adj, p, u, v)
    ensures Reaches(rev, v, u)
  {
    var q := seq(|p|, i requires 0 <= i < |p| => p[|p| - 1 - i]);
    if |p| > 1 {
      assert Edge(adj, p[|p| - 2], v) && Edge(rev, v, p[|p| - 2]);
    }
    forall i | 0 <= i < |q| - 1 ensures Edge(rev, q[i], q[i + 1]) {
      var j := |p| - 2 - i;
      assert Edge(adj, p[j], p[j + 1]);
    }
    assert WalkBetween(rev, q, v, u);
  }

  // ----- breadth-first search

  /** What a search has found: duplicate-free, reachable, in nondecreasing distance. */
  ghost predicate Layered(adj: Adjacency, source: nat, order: seq<nat>) {
    && Distinct(order)
    && (forall i :: 0 <= i < |order| ==> Reaches(adj, source, order[i]))
    && (forall i, j :: 0 <= i <= j < |order| ==>
          Distance(adj, source, order[i]) <= Distance(adj, source, order[j]))
  }

  /** Everything at most as far as the node in front has been found,
      and nothing found is more than one step further. */
  ghost predicate Frontier(adj: Adjacency, source: nat, order: seq<nat>, d: nat) {
    && (forall v :: Within(adj, source, v, d) ==> v in order)
    && (forall i :: 0 <= i < |order| && Reaches(adj, source, order[i]) ==>
          Distance(adj, source, order[i]) <= d + 1)
  }

  lemma FoundNext(adj: Adjacency, source: nat, order: seq<nat>, v: nat, w: nat)
    requires Layered(adj, source, order) && v in order && Edge(adj, v, w) && w !in order
    requires Frontier(adj, source, order, Distance(adj, source, v))
    ensures Layered(adj, source, order + [w])
    ensures Frontier(adj, source, order + [w], Distance(adj, source, v))
  {
    var d := Distance(adj, source, v);
    StepFurther(adj, source, v, w, d);
    assert Reaches(adj, source, w);
    assert !Within(adj, source, w, d);
    assert Distance(adj, source, w) == d + 1 by {
      NotCloser(adj, source, w, d + 1);
    }
  }

  /** Once a node's successors are all found, the search may move on to the next node. */
  lemma NextLayer(adj: Adjacency, source: nat, order: seq<nat>, head: nat)
    requires 0 < head < |order| && Layered(adj, source, order) && source in order
    requires Frontier(adj, source, order, Distance(adj, source, order[head - 1]))
    requires Expanded(adj, order, head)
    ensures Frontier(adj, source, order, Distance(adj, source, order[head]))
  {
    var d := Distance(adj, source, order[head - 1]);
    if Distance(adj, source, order[head]) == d + 1 {
      forall w | Within(adj, source, w, d + 1) ensures w in order {
        if w != source {
          var v := StepBack(adj, source, w, d);
          assert v in order;
          var i :| 0 <= i < |order| && order[i] == v;
          assert Distance(adj, source, v) <= d;
          assert i < head;
        }
      }
    }
  }

  /** The nodes found once the list ws has been looked through. */
  function Discover(order: seq<nat>, ws: seq<nat>): seq<nat> {
    if ws == [] then order
    else
      var found := Discover(order, ws[..|ws| - 1]);
      var w := ws[|ws| - 1];
      if w in found then found else found + [w]
  }

  lemma {:induction false} DiscoverFinds(adj: Adjacency, order: seq<nat>, ws: seq<nat>)
    requires InRange(adj) && Distinct(order)
    requires AllBelow(order, |adj|) && AllBelow(ws, |adj|)
    ensures order <= Discover(order, ws)
    ensures Distinct(Discover(order, ws)) && AllBelow(Discover(order, ws), |adj|)
    ensures forall v :: v in Discover(order, ws) <==> v in order || v in ws
  {
    if ws != [] {
      var front := ws[..|ws| - 1];
      assert ws == front + [ws[|ws| - 1]];
      DiscoverFinds(adj, order, front);
    }
  }

  /** A state of the search: the nodes found so far, of which the first head are done. */
  ghost predicate Searching(adj: Adjacency, order: seq<nat>, head: nat) {
    && InRange(adj)
    && head <= |order|
    && Distinct(order)
    && AllBelow(order, |adj|)
  }

  ghost function SearchFrom(adj: Adjacency, order: seq<nat>, head: nat): seq<nat>
    requires Searching(adj, order, head)
    decreases |adj| - head
  {
    if head == |order| then order
    else
      SearchContinues(adj, order, head);
      SearchFrom(adj, Discover(order, adj[order[head]]), head + 1)
  }

  lemma SearchContinues(adj: Adjacency, order: seq<nat>, head: nat)
    requires Searching(adj, order, head) && head < |order|
    ensures Searching(adj, Discover(order, adj[order[head]]), head + 1)
    ensures order <= Discover(order, adj[order[head]])
    ensures head < |adj| && AllBelow(adj[order[head]], |adj|)
  {
    DistinctBelow(order, |adj|);
    forall i | 0 <= i < |adj[order[head]]| ensures adj[order[head]][i] < |adj| {
      assert Edge(adj, order[head], adj[order[head]][i]);
    }
    DiscoverFinds(adj, order, adj[order[head]]);
  }

  lemma {:induction false} DiscoverLayered(adj: Adjacency, source: nat, order: seq<nat>, v: nat, ws: seq<nat>)
    requires Layered(adj, source, order) && v in order && forall w :: w in ws ==> Edge(adj, v, w)
    requires Frontier(adj, source, order, Distance(adj, source, v))
    ensures order <= Discover(order, ws)
    ensures Layered(adj, source, Discover(order, ws))
    ensures Frontier(adj, source, Discover(order, ws), Distance(adj, source, v))
  {
    if ws != [] {
      var front, w := ws[..|ws| - 1], ws[|ws| - 1];
      assert w in ws;
      DiscoverLayered(adj, source, order, v, front);
      var found := Discover(order, front);
      if w !in found {
        FoundNext(adj, source, found, v, w);
      }
    }
  }

  /** The successors of the first head nodes have all been found. */
  ghost predicate Expanded(adj: Adjacency, order: seq<nat>, head: nat) {
    head <= |order| && forall i, w: nat :: 0 <= i < head && Edge(adj, order[i], w) ==> w in order
  }

  lemma ExpandedKept(adj: Adjacency, order: seq<nat>, head: nat)
    requires Searching(adj, order, head) && Expanded(adj, order, head) && head < |order|
    ensures Expanded(adj, Discover(order, adj[order[head]]), head + 1)
  {
    SearchContinues(adj, order, head);
    DiscoverFinds(adj, order, adj[order[head]]);
    var next := Discover(order, adj[order[head]]);
    forall i, w: nat | 0 <= i < head + 1 && Edge(adj, next[i], w) ensures w in next {
      assert next[i] == order[i];
      if i < head { assert w in order; }
    }
  }

  /** What holds between two rounds of the search. */
  ghost predicate SearchInvariant(adj: Adjacency, source: nat, order: seq<nat>, head: nat) {
    && Searching(adj, order, head)
    && Layered(adj, source, order)
    && source in order
    && Expanded(adj, order, head)
    && (head < |order| ==> Frontier(adj, source, order, Distance(adj, source, order[head])))
  }

  lemma SearchInvariantKept(adj: Adjacency, source: nat, order: seq<nat>, head: nat)
    requires SearchInvariant(adj, source, order, head) && head < |order|
    ensures head < |adj| && SearchInvariant(adj, source, Discover(order, adj[order[head]]), head + 1)
  {
    var v := order[head];
    var next := Discover(order, adj[v]);
    SearchContinues(adj, order, head);
    DiscoverLayered(adj, source, order, v, adj[v]);
    ExpandedKept(adj, order, head);
    if head + 1 < |next| {
      NextLayer(adj, source, next, head + 1);
    }
  }

  lemma SearchComplete(adj: Adjacency, source: nat, order: seq<nat>)
    requires source in order && Expanded(adj, order, |order|)
    ensures forall v :: Reaches(adj, source, v) ==> v in order
  {
    forall v | Reaches(adj, source, v) ensures v in order {
      var p :| WalkBetween(adj, p, source, v);
      ClosedUnderEdges(adj, source, v, Elements(order), p);
    }
  }

  lemma {:induction false} SearchFromKeeps(adj: Adjacency, source: nat, order: seq<nat>, head: nat)
    requires SearchInvariant(adj, source, order, head)
    ensures var last := SearchFrom(adj, order, head); SearchInvariant(adj, source, last, |last|)
    decreases |adj| - head
  {
    if head < |order| {
      SearchInvariantKept(adj, source, order, head);
      SearchFromKeeps(adj, source, Discover(order, adj[order[head]]), head + 1);
    }
  }

  lemma SearchCorrect(adj: Adjacency, source: nat)
    requires InRange(adj) && source < |adj|
    ensures Layered(adj, source, SearchFrom(adj, [source], 0))
    ensures forall v :: v in SearchFrom(adj, [source], 0) <==> Reaches(adj, source, v)
  {
    assert WalkBetween(adj, [source], source, source);
    assert Within(adj, source, source, 0);
    SearchFromKeeps(adj, source, [source], 0);
    SearchComplete(adj, source, SearchFrom(adj, [source], 0));
  }

  method Search(adj: Adjacency, source: nat) returns (result: seq<nat>)
    requires InRange(adj) && source < |adj|
    ensures Layered(adj, source, result)
    ensures forall v :: v in result <==> Reaches(adj, source, v)
  {
    var visited := new bool[|adj|](_ => false);
    var queue := [source];
    visited[source] := true;
    result := [];
    assert result + queue == [source];
    while queue != []
      invariant Searching(adj, result + queue, |result|)
      invariant forall v :: 0 <= v < |adj| ==> (visited[v] <==> v in result + queue)
      invariant SearchFrom(adj, result + queue, |result|) == SearchFrom(adj, [source], 0)
      decreases |adj| - |result|
    {
      var v := queue[0];
      ghost var order := result + queue;
      assert v == order[|result|];
      SearchContinues(adj, order, |result|);
      queue := queue[1..];
      result := result + [v];
      assert result + queue == order;
      var successors := adj[v];
      for k := 0 to |successors|
        invariant result + queue == Discover(order, successors[..k])
        invariant forall x :: 0 <= x < |adj| ==> (visited[x] <==> x in result + queue)
      {
        var w := successors[k];
        assert Edge(adj, v, w);
        assert successors[..k + 1][..k] == successors[..k];
        if !visited[w] {
          visited[w] := true;
          assert result + (queue + [w]) == (result + queue) + [w];
          queue := queue + [w];
        }
      }
      assert successors[..|successors|] == successors;
    }
    assert result + queue == result;
    SearchCorrect(adj, source);
  }

  method ReachableFrom(graph: DiGraph, source: nat) returns (result: seq<nat>)
    requires graph.Valid()
    ensures Layered(graph.adj, source, result)
    ensures forall v :: v in result <==> Reaches(graph.adj, source, v)
  {
    if source >= graph.Len() {
      return [];
    }
    result := Search(graph.adj, source);
  }

  /** The nodes that can reach target, nearest first. */
  method ReachableTo(graph: DiGraph, target: nat) returns (result: seq<nat>)
    requires graph.Valid()
    ensures Layered(graph.revAdj, target, result)
    ensures forall u :: u in result <==> Reaches(graph.adj, u, target)
  {
    if target >= graph.Len() {
      forall u: nat ensures !Reaches(graph.adj, u, target) {
        if Reaches(graph.adj, u, target) {
          var p :| WalkBetween(graph.adj, p, u, target);
          WalkInRange(graph.adj, p);
        }
      }
      return [];
    }
    assert InRange(graph.revAdj) by {
      forall u: nat, v: nat | Edge(graph.revAdj, u, v) ensures v < |graph.revAdj| {
        assert Edge(graph.adj, v, u);
      }
    }
    result := Search(graph.revAdj, target);
    forall u: nat ensures u in result <==> Reaches(graph.adj, u, target) {
      ReachesReversed(graph.adj, graph.revAdj, u, target);
    }
  }
}
