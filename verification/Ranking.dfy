/** Ranking issues by how much closing them would unblock. */
module Ranking {
  import opened Sequences
  import opened Sorting
  import opened Graphs
  import opened Snapshots
  import opened Unblocking
  import opened WhatIf
  import opened Deadlock

  datatype TopWhatIfEntry = TopWhatIfEntry(node: nat, result: WhatIfResult)

  /** What the order looks at. */
  datatype Score = Score(transitive: nat, direct: nat, node: nat)

  function ScoreOf(e: TopWhatIfEntry): Score {
    Score(e.result.transitiveUnblocks, e.result.directUnblocks, e.node)
  }

  /** Larger cascades first, then more direct unblocks, then the smaller index. */
  predicate Higher(a: Score, b: Score) {
    || a.transitive > b.transitive
    || (a.transitive == b.transitive && a.direct > b.direct)
    || (a.transitive == b.transitive && a.direct == b.direct && a.node < b.node)
  }

  predicate Better(a: TopWhatIfEntry, b: TopWhatIfEntry) {
    Higher(ScoreOf(a), ScoreOf(b))
  }

  function Truncated<T>(s: seq<T>, limit: nat): seq<T> {
    if limit < |s| then s[..limit] else s
  }

  /** No mask admits every node; a missing or zero entry of a mask excludes its node. */
  predicate Eligible(candidates: Option<seq<byte>>, node: nat) {
    candidates.Some? ==> node < |candidates.value| && candidates.value[node] != 0
  }

  /** The eligible nodes among `nodes` whose closing unblocks something, with their impact. */
  ghost function ImpactOf(g: Graph, mask: seq<bool>, nodes: seq<nat>, candidates: Option<seq<byte>>)
    : seq<TopWhatIfEntry>
    requires |g.adj| == |g.rev|
  {
    if nodes == [] then []
    else
      var found := ImpactOf(g, mask, nodes[..|nodes| - 1], candidates);
      var v := nodes[|nodes| - 1];
      var r := Outcome(g, [v], mask);
      if Eligible(candidates, v) && r.transitiveUnblocks > 0 then found + [TopWhatIfEntry(v, r)] else found
  }

  ghost function Ranked(g: Graph, mask: seq<bool>, nodes: seq<nat>, candidates: Option<seq<byte>>)
    : seq<TopWhatIfEntry>
    requires |g.adj| == |g.rev|
  {
    Sort(Better, ImpactOf(g, mask, nodes, candidates))
  }

  ghost predicate IsImpact(
    g: Graph, mask: seq<bool>, nodes: seq<nat>, candidates: Option<seq<byte>>, e: TopWhatIfEntry)
    requires |g.adj| == |g.rev|
  {
    && e.node in nodes && Eligible(candidates, e.node)
    && e.result == Outcome(g, [e.node], mask) && e.result.transitiveUnblocks > 0
  }

  lemma {:induction false} ImpactMembers(g: Graph, mask: seq<bool>, nodes: seq<nat>, candidates: Option<seq<byte>>)
    requires |g.adj| == |g.rev| && Distinct(nodes)
    ensures Distinct(ImpactOf(g, mask, nodes, candidates))
    ensures forall e :: e in ImpactOf(g, mask, nodes, candidates) <==> IsImpact(g, mask, nodes, candidates, e)
  {
    if nodes != [] {
      var front := nodes[..|nodes| - 1];
      assert nodes == front + [nodes[|nodes| - 1]];
      ImpactMembers(g, mask, front, candidates);
      var found := ImpactOf(g, mask, front, candidates);
      assert forall i :: 0 <= i < |found| ==> found[i] in found;
    }
  }

  lemma BetterIsTotal(S: set<TopWhatIfEntry>)
    requires forall x, y :: x in S && y in S && x.node == y.node ==> x == y
    ensures StrictTotalOn(Better, S)
  {
  }

  /** A ranking lists exactly the impacts, strictly ordered, so that its first entries beat all others. */
  lemma RankedIsOrdered(g: Graph, mask: seq<bool>, nodes: seq<nat>, candidates: Option<seq<byte>>)
    requires |g.adj| == |g.rev| && Distinct(nodes)
    ensures SortedBy(Better, Ranked(g, mask, nodes, candidates))
    ensures var ranked := Ranked(g, mask, nodes, candidates);
            forall i, j :: 0 <= i < j < |ranked| ==>
              var a, b := ranked[i].result, ranked[j].result;
              && a.transitiveUnblocks >= b.transitiveUnblocks
              && (a.transitiveUnblocks == b.transitiveUnblocks ==> a.directUnblocks >= b.directUnblocks)
              && (a.transitiveUnblocks == b.transitiveUnblocks && a.directUnblocks == b.directUnblocks ==>
                    ranked[i].node < ranked[j].node)
    ensures forall e :: e in Ranked(g, mask, nodes, candidates) <==> IsImpact(g, mask, nodes, candidates, e)
  {
    var impacts := ImpactOf(g, mask, nodes, candidates);
    ImpactMembers(g, mask, nodes, candidates);
    BetterIsTotal(Elements(impacts));
    SortSorts(Better, impacts);
    SortMembers(Better, impacts);
  }

  /** What a truncated ranking leaves out is worse than everything it keeps. */
  lemma TruncationKeepsBest(
    g: Graph, mask: seq<bool>, nodes: seq<nat>, candidates: Option<seq<byte>>, limit: nat, e: TopWhatIfEntry)
    requires |g.adj| == |g.rev| && Distinct(nodes) && IsImpact(g, mask, nodes, candidates, e)
    ensures var kept := Truncated(Ranked(g, mask, nodes, candidates), limit);
            e in kept || (|kept| == limit && forall i :: 0 <= i < |kept| ==> Better(kept[i], e))
  {
    RankedIsOrdered(g, mask, nodes, candidates);
    var ranked := Ranked(g, mask, nodes, candidates);
    var k :| 0 <= k < |ranked| && ranked[k] == e;
    var kept := Truncated(ranked, limit);
    if k < |kept| {
      assert kept[k] == e;
    }
  }

  /** With every node a candidate, the actionable ranking is the full ranking with the rest left out. */
  lemma ActionableRankingIsSubsequence(g: Graph, mask: seq<bool>)
    requires g.Valid()
    ensures var actionable := ActionableNodes(g.adj, mask);
            Ranked(g, mask, actionable, None)
            == Filter((e: TopWhatIfEntry) => e.node in actionable, Ranked(g, mask, OpenNodes(|g.adj|, mask), None))
  {
    var actionable, open := ActionableNodes(g.adj, mask), OpenNodes(|g.adj|, mask);
    var keep := (e: TopWhatIfEntry) => e.node in actionable;
    var some, all := Ranked(g, mask, actionable, None), Ranked(g, mask, open, None);
    RankedIsOrdered(g, mask, actionable, None);
    RankedIsOrdered(g, mask, open, None);
    FilterSorted(Better, keep, all);
    var kept := Filter(keep, all);
    forall e ensures e in some <==> e in kept {
      FilterMember(keep, all, e);
    }
    BetterIsTotal(Elements(some));
    SortedDistinct(some);
    SortedDistinct(kept);
    SameSize(some, kept);
    SortedUnique(Better, some, kept);
  }

  lemma SortedDistinct(s: seq<TopWhatIfEntry>)
    requires SortedBy(Better, s)
    ensures Distinct(s)
  {
  }

  /** Confluence: rankings of graphs with the same edges agree on nodes and counts. */
  lemma RankedOfEdgeSet(g: Graph, h: Graph, mask: seq<bool>, nodes: seq<nat>, candidates: Option<seq<byte>>)
    requires g.Valid() && h.Valid() && |g.adj| == |h.adj|
    requires forall u: nat, v: nat :: Edge(g.adj, u, v) <==> Edge(h.adj, u, v)
    ensures Map(ScoreOf, Ranked(g, mask, nodes, candidates)) == Map(ScoreOf, Ranked(h, mask, nodes, candidates))
  {
    ImpactOfEdgeSet(g, h, mask, nodes, candidates);
    SortByKey(ScoreOf, Higher, Better, ImpactOf(g, mask, nodes, candidates));
    SortByKey(ScoreOf, Higher, Better, ImpactOf(h, mask, nodes, candidates));
  }

  lemma {:induction false} ImpactOfEdgeSet(
    g: Graph, h: Graph, mask: seq<bool>, nodes: seq<nat>, candidates: Option<seq<byte>>)
    requires g.Valid() && h.Valid() && |g.adj| == |h.adj|
    requires forall u: nat, v: nat :: Edge(g.adj, u, v) <==> Edge(h.adj, u, v)
    ensures Map(ScoreOf, ImpactOf(g, mask, nodes, candidates)) == Map(ScoreOf, ImpactOf(h, mask, nodes, candidates))
    decreases |nodes|
  {
    if nodes != [] {
      var front, v := nodes[..|nodes| - 1], nodes[|nodes| - 1];
      ImpactOfEdgeSet(g, h, mask, front, candidates);
      OutcomeOfEdgeSet(g, h, [v], mask);
      MapPush(ImpactOf(g, mask, front, candidates), TopWhatIfEntry(v, Outcome(g, [v], mask)));
      MapPush(ImpactOf(h, mask, front, candidates), TopWhatIfEntry(v, Outcome(h, [v], mask)));
    }
  }

  lemma MapPush(s: seq<TopWhatIfEntry>, e: TopWhatIfEntry)
    ensures Map(ScoreOf, s + [e]) == Map(ScoreOf, s) + [ScoreOf(e)]
  {
  }

  /** The actionable nodes, too, depend on the edges only. */
  lemma ActionableOfEdgeSet(g: Graph, h: Graph, mask: seq<bool>)
    requires g.Valid() && h.Valid() && |g.adj| == |h.adj|
    requires forall u: nat, v: nat :: Edge(g.adj, u, v) <==> Edge(h.adj, u, v)
    ensures ActionableNodes(g.adj, mask) == ActionableNodes(h.adj, mask)
  {
    var s, t := ActionableNodes(g.adj, mask), ActionableNodes(h.adj, mask);
    forall w: nat, S: set<nat> | w < |g.adj| ensures Resolved(g.adj, w, S) <==> Resolved(h.adj, w, S) {
      forall p ensures p in g.adj[w] <==> p in h.adj[w] {
        assert Edge(g.adj, w, p) <==> Edge(h.adj, w, p);
      }
    }
    assert forall w: nat :: w in s <==> w in t;
    SameSize(s, t);
    AscendingUnique(s, t);
  }

  lemma MapTruncated(s: seq<TopWhatIfEntry>, t: seq<TopWhatIfEntry>, limit: nat)
    requires Map(ScoreOf, s) == Map(ScoreOf, t)
    ensures Map(ScoreOf, Truncated(s, limit)) == Map(ScoreOf, Truncated(t, limit))
  {
  }

  /** So the ranking of actionable nodes has the same node sequence however the edges were added. */
  lemma TopRankingOfEdgeSet(g: Graph, h: Graph, mask: seq<bool>, limit: nat, candidates: Option<seq<byte>>)
    requires g.Valid() && h.Valid() && |g.adj| == |h.adj|
    requires forall u: nat, v: nat :: Edge(g.adj, u, v) <==> Edge(h.adj, u, v)
    ensures Map(ScoreOf, Truncated(Ranked(g, mask, ActionableNodes(g.adj, mask), candidates), limit))
         == Map(ScoreOf, Truncated(Ranked(h, mask, ActionableNodes(h.adj, mask), candidates), limit))
  {
    ActionableOfEdgeSet(g, h, mask);
    RankingOfEdgeSet(g, h, mask, ActionableNodes(g.adj, mask), limit, candidates);
  }

  /** And so has the ranking of any other list of nodes, such as all open ones. */
  lemma RankingOfEdgeSet(
    g: Graph, h: Graph, mask: seq<bool>, nodes: seq<nat>, limit: nat, candidates: Option<seq<byte>>)
    requires g.Valid() && h.Valid() && |g.adj| == |h.adj|
    requires forall u: nat, v: nat :: Edge(g.adj, u, v) <==> Edge(h.adj, u, v)
    ensures Map(ScoreOf, Truncated(Ranked(g, mask, nodes, candidates), limit))
         == Map(ScoreOf, Truncated(Ranked(h, mask, nodes, candidates), limit))
  {
    RankedOfEdgeSet(g, h, mask, nodes, candidates);
    MapTruncated(Ranked(g, mask, nodes, candidates), Ranked(h, mask, nodes, candidates), limit);
  }

  /** Exporting a graph and importing it again changes no impact and no ranking. */
  lemma RoundTripKeepsRanking(g: Graph, mask: seq<bool>, limit: nat, candidates: Option<seq<byte>>)
    requires g.Valid()
    ensures Map(ScoreOf, Truncated(Ranked(g, mask, ActionableNodes(g.adj, mask), candidates), limit))
         == Map(ScoreOf, Truncated(
                  Ranked(RoundTrip(g), mask, ActionableNodes(RoundTrip(g).adj, mask), candidates), limit))
  {
    RoundTripRebuilds(g);
    TopRankingOfEdgeSet(g, RoundTrip(g), mask, limit, candidates);
  }

  // ----- the order in terms of what closing a node completes

  /** How many nodes closing v completes. */
  ghost function CascadeSize(adj: Adjacency, mask: seq<bool>, v: nat): nat {
    |Cascade(adj, ClosedNodes(|adj|, mask), After(|adj|, [v], mask))|
  }

  /** How many of them become actionable at once. */
  ghost function DirectSize(adj: Adjacency, mask: seq<bool>, v: nat): nat {
    |Direct(adj, ClosedNodes(|adj|, mask), After(|adj|, [v], mask))|
  }

  /** Closing v completes more than closing w, or as much with more at once, or the two tie and v is the smaller. */
  ghost predicate Ahead(adj: Adjacency, mask: seq<bool>, v: nat, w: nat) {
    var cv, cw := CascadeSize(adj, mask, v), CascadeSize(adj, mask, w);
    var dv, dw := DirectSize(adj, mask, v), DirectSize(adj, mask, w);
    cv >= cw && (cv == cw ==> dv >= dw) && (cv == cw && dv == dw ==> v < w)
  }

  /** The entries answer for the best of the choices whose closing completes anything, best first, `limit` at most. */
  ghost predicate BestChoices(
    adj: Adjacency, mask: seq<bool>, choices: set<nat>, limit: nat, results: seq<TopWhatIfEntry>)
  {
    && |results| <= limit
    && (forall i :: 0 <= i < |results| ==> IsChoice(adj, mask, choices, results[i]))
    && (forall i, j :: 0 <= i < j < |results| ==> Ahead(adj, mask, results[i].node, results[j].node))
    && (forall v: nat :: v in choices && CascadeSize(adj, mask, v) > 0 ==>
          || Kept(results, v)
          || (|results| == limit && forall i :: 0 <= i < |results| ==> Ahead(adj, mask, results[i].node, v)))
  }

  ghost predicate IsChoice(adj: Adjacency, mask: seq<bool>, choices: set<nat>, e: TopWhatIfEntry) {
    && e.node in choices && CascadeSize(adj, mask, e.node) > 0
    && Answers(adj, ClosedNodes(|adj|, mask), After(|adj|, [e.node], mask), e.result)
  }

  ghost predicate Kept(results: seq<TopWhatIfEntry>, v: nat) {
    exists i :: 0 <= i < |results| && results[i].node == v
  }

  /** The open nodes without an open prerequisite for which the candidate mask, if there is one, has a nonzero byte. */
  ghost predicate MayStart(adj: Adjacency, mask: seq<bool>, candidates: Option<seq<byte>>, v: nat) {
    && v < |adj| && !(v < |mask| && mask[v])
    && Resolved(adj, v, ClosedNodes(|adj|, mask))
    && match candidates case None => true case Some(bytes) => v < |bytes| && bytes[v] > 0
  }

  ghost function StartingChoices(adj: Adjacency, mask: seq<bool>, candidates: Option<seq<byte>>): set<nat> {
    set v: nat | v < |adj| && MayStart(adj, mask, candidates, v)
  }

  ghost function OpenChoices(n: nat, mask: seq<bool>): set<nat> {
    set v: nat | v < n && !(v < |mask| && mask[v])
  }

  /** A choice whose closing completes more than that of a kept entry is kept. */
  lemma LargerCascadeIsKept(
    adj: Adjacency, mask: seq<bool>, choices: set<nat>, limit: nat, results: seq<TopWhatIfEntry>, i: nat, v: nat)
    requires BestChoices(adj, mask, choices, limit, results) && i < |results| && v in choices
    requires CascadeSize(adj, mask, v) > CascadeSize(adj, mask, results[i].node)
    ensures Kept(results, v)
  {
  }

  lemma ImpactIsChoice(
    g: Graph, mask: seq<bool>, nodes: seq<nat>, candidates: Option<seq<byte>>, choices: set<nat>, e: TopWhatIfEntry)
    requires g.Valid() && IsImpact(g, mask, nodes, candidates, e)
    requires forall v :: v in choices <==> v in nodes && Eligible(candidates, v)
    ensures IsChoice(g.adj, mask, choices, e)
    ensures ScoreOf(e) == Score(CascadeSize(g.adj, mask, e.node), DirectSize(g.adj, mask, e.node), e.node)
  {
    OutcomeAnswers(g, [e.node], mask);
  }

  lemma BetterIsAhead(
    g: Graph, mask: seq<bool>, nodes: seq<nat>, candidates: Option<seq<byte>>, a: TopWhatIfEntry, b: TopWhatIfEntry)
    requires g.Valid() && Better(a, b)
    requires IsImpact(g, mask, nodes, candidates, a) && IsImpact(g, mask, nodes, candidates, b)
    ensures Ahead(g.adj, mask, a.node, b.node)
  {
    var choices := set v | v in nodes && Eligible(candidates, v);
    ImpactIsChoice(g, mask, nodes, candidates, choices, a);
    ImpactIsChoice(g, mask, nodes, candidates, choices, b);
  }

  lemma ChoiceIsKept(
    g: Graph, mask: seq<bool>, nodes: seq<nat>, candidates: Option<seq<byte>>, limit: nat, v: nat)
    requires g.Valid() && Distinct(nodes) && v in nodes && Eligible(candidates, v)
    requires CascadeSize(g.adj, mask, v) > 0
    ensures var results := Truncated(Ranked(g, mask, nodes, candidates), limit);
            || Kept(results, v)
            || (|results| == limit && forall i :: 0 <= i < |results| ==> Ahead(g.adj, mask, results[i].node, v))
  {
    var results := Truncated(Ranked(g, mask, nodes, candidates), limit);
    var e := TopWhatIfEntry(v, Outcome(g, [v], mask));
    OutcomeAnswers(g, [v], mask);
    RankedIsOrdered(g, mask, nodes, candidates);
    TruncationKeepsBest(g, mask, nodes, candidates, limit, e);
    if e in results {
      var i :| 0 <= i < |results| && results[i] == e;
    } else {
      forall i | 0 <= i < |results| ensures Ahead(g.adj, mask, results[i].node, v) {
        assert results[i] == Ranked(g, mask, nodes, candidates)[i];
        BetterIsAhead(g, mask, nodes, candidates, results[i], e);
      }
    }
  }

  /** A truncated ranking holds the best choices. */
  lemma RankingIsBest(
    g: Graph, mask: seq<bool>, nodes: seq<nat>, candidates: Option<seq<byte>>, limit: nat, choices: set<nat>)
    requires g.Valid() && Distinct(nodes)
    requires forall v :: v in choices <==> v in nodes && Eligible(candidates, v)
    ensures BestChoices(g.adj, mask, choices, limit, Truncated(Ranked(g, mask, nodes, candidates), limit))
  {
    var ranked := Ranked(g, mask, nodes, candidates);
    var results := Truncated(ranked, limit);
    RankedIsOrdered(g, mask, nodes, candidates);
    forall i | 0 <= i < |results| ensures IsChoice(g.adj, mask, choices, results[i]) {
      assert results[i] == ranked[i];
      ImpactIsChoice(g, mask, nodes, candidates, choices, results[i]);
    }
    forall i, j | 0 <= i < j < |results| ensures Ahead(g.adj, mask, results[i].node, results[j].node) {
      assert results[i] == ranked[i] && results[j] == ranked[j];
      BetterIsAhead(g, mask, nodes, candidates, results[i], results[j]);
    }
    forall v: nat | v in choices && CascadeSize(g.adj, mask, v) > 0
      ensures || Kept(results, v)
              || (|results| == limit && forall i :: 0 <= i < |results| ==> Ahead(g.adj, mask, results[i].node, v))
    {
      ChoiceIsKept(g, mask, nodes, candidates, limit, v);
    }
  }

  lemma ActionableAreChoices(g: Graph, mask: seq<bool>, candidates: Option<seq<byte>>)
    requires g.Valid()
    ensures Distinct(ActionableNodes(g.adj, mask))
    ensures forall v :: v in StartingChoices(g.adj, mask, candidates) <==>
              v in ActionableNodes(g.adj, mask) && Eligible(candidates, v)
  {
  }

  lemma OpenAreChoices(n: nat, mask: seq<bool>)
    ensures Distinct(OpenNodes(n, mask))
    ensures forall v :: v in OpenChoices(n, mask) <==> v in OpenNodes(n, mask) && Eligible(None, v)
  {
  }

  // ----- the operations

  /** The nodes the mask leaves open, in order. */
  function OpenBelow(mask: seq<bool>, k: nat): (r: seq<nat>)
    ensures Ascending(r)
    ensures forall w: nat :: w in r <==> w < k && !(w < |mask| && mask[w])
  {
    if k == 0 then []
    else
      var below := OpenBelow(mask, k - 1);
      assert forall i :: 0 <= i < |below| ==> below[i] in below;
      if k - 1 < |mask| && mask[k - 1] then below else below + [k - 1]
  }

  function OpenNodes(n: nat, mask: seq<bool>): seq<nat> {
    OpenBelow(mask, n)
  }

  method CollectImpacts(graph: DiGraph, closedSet: seq<bool>, nodes: seq<nat>, candidates: Option<seq<byte>>)
    returns (results: seq<TopWhatIfEntry>)
    requires graph.Valid()
    ensures results == ImpactOf(graph.View(), closedSet, nodes, candidates)
  {
    results := [];
    for i := 0 to |nodes|
      invariant results == ImpactOf(graph.View(), closedSet, nodes[..i], candidates)
    {
      var node := nodes[i];
      assert nodes[..i + 1][..i] == nodes[..i];
      if Eligible(candidates, node) {
        var result := WhatIfClose(graph, node, closedSet);
        if result.transitiveUnblocks > 0 {
          results := results + [TopWhatIfEntry(node, result)];
        }
      }
    }
    assert nodes[..|nodes|] == nodes;
  }

  method TopWhatIf(graph: DiGraph, closedSet: seq<bool>, limit: nat, candidateSet: Option<seq<byte>>)
    returns (results: seq<TopWhatIfEntry>)
    requires graph.Valid()
    ensures results == Truncated(
              Ranked(graph.View(), closedSet, ActionableNodes(graph.adj, closedSet), candidateSet), limit)
    ensures BestChoices(
              graph.adj, closedSet, StartingChoices(graph.adj, closedSet, candidateSet), limit, results)
  {
    ActionableAreChoices(graph.View(), closedSet, candidateSet);
    RankingIsBest(
      graph.View(), closedSet, ActionableNodes(graph.adj, closedSet), candidateSet, limit,
      StartingChoices(graph.adj, closedSet, candidateSet));
    var candidates := ActionableNodes(graph.adj, closedSet);
    if graph.Len() == 0 {
      return [];
    }
    results := CollectImpacts(graph, closedSet, candidates, candidateSet);
    results := Truncated(Sort(Better, results), limit);
  }

  method AllWhatIf(graph: DiGraph, closedSet: seq<bool>, limit: nat) returns (results: seq<TopWhatIfEntry>)
    requires graph.Valid()
    ensures results == Truncated(
              Ranked(graph.View(), closedSet, OpenNodes(|graph.adj|, closedSet), None), limit)
    ensures BestChoices(graph.adj, closedSet, OpenChoices(|graph.adj|, closedSet), limit, results)
  {
    OpenAreChoices(|graph.adj|, closedSet);
    RankingIsBest(
      graph.View(), closedSet, OpenNodes(|graph.adj|, closedSet), None, limit, OpenChoices(|graph.adj|, closedSet));
    var n := graph.Len();
    if n == 0 {
      return [];
    }
    var closed := seq(n, i => 0 <= i < |closedSet| && closedSet[i]);
    var open := OpenNodes(|graph.adj|, closed);
    OpenNodesOfMask(|graph.adj|, closed, closedSet);
    ImpactOfMask(graph.View(), closed, closedSet, open, None);
    results := CollectImpacts(graph, closed, open, None);
    results := Truncated(Sort(Better, results), limit);
  }

  lemma OpenNodesOfMask(n: nat, mask: seq<bool>, other: seq<bool>)
    requires ClosedNodes(n, mask) == ClosedNodes(n, other)
    ensures OpenNodes(n, mask) == OpenNodes(n, other)
  {
    var s, t := OpenNodes(n, mask), OpenNodes(n, other);
    forall w: nat ensures w in s <==> w in t {
      assert w in ClosedNodes(n, mask) <==> w in ClosedNodes(n, other);
    }
    SameSize(s, t);
    AscendingUnique(s, t);
  }

  /** Entries of a mask beyond the node count do not matter, nor do missing false ones. */
  lemma {:induction false} ImpactOfMask(
    g: Graph, mask: seq<bool>, other: seq<bool>, nodes: seq<nat>, candidates: Option<seq<byte>>)
    requires |g.adj| == |g.rev| && ClosedNodes(|g.adj|, mask) == ClosedNodes(|g.adj|, other)
    ensures ImpactOf(g, mask, nodes, candidates) == ImpactOf(g, other, nodes, candidates)
    decreases |nodes|
  {
    if nodes != [] {
      ImpactOfMask(g, mask, other, nodes[..|nodes| - 1], candidates);
      assert Outcome(g, [nodes[|nodes| - 1]], mask) == Outcome(g, [nodes[|nodes| - 1]], other);
    }
  }
}
