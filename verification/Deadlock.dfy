/** Which open issues can never be completed: exactly those that wait on a cycle of open issues. */
module Deadlock {
  import opened Sequences
  import opened Graphs
  import opened Reachability
  import opened Unblocking
  import opened WhatIf

  /** The open nodes below k with no open prerequisite. */
  function ActionableBelow(adj: Adjacency, mask: seq<bool>, k: nat): (r: seq<nat>)
    requires InRange(adj) && k <= |adj|
    ensures Ascending(r)
    ensures forall w: nat :: w in r <==>
              (w < k && w !in ClosedNodes(|adj|, mask) && Resolved(adj, w, ClosedNodes(|adj|, mask)))
  {
    if k == 0 then []
    else
      var below := ActionableBelow(adj, mask, k - 1);
      assert forall i :: 0 <= i < |below| ==> below[i] in below;
      ActionableIsResolved(adj, k - 1, mask);
      if !(k - 1 < |mask| && mask[k - 1]) && IsActionable(adj, k - 1, mask) then below + [k - 1] else below
  }

  function ActionableNodes(adj: Adjacency, mask: seq<bool>): seq<nat>
    requires InRange(adj)
  {
    ActionableBelow(adj, mask, |adj|)
  }

  ghost predicate OpenWalk(adj: Adjacency, closed: set<nat>, p: seq<nat>) {
    Walk(adj, p) && forall i :: 0 <= i < |p| ==> p[i] !in closed
  }

  /** w leads, through open nodes only, to a cycle of open nodes. */
  ghost predicate WaitsOnOpenCycle(adj: Adjacency, closed: set<nat>, w: nat) {
    exists p: seq<nat>, q: seq<nat> :: WaitsOn(adj, closed, w, p, q)
  }

  ghost predicate WaitsOn(adj: Adjacency, closed: set<nat>, w: nat, p: seq<nat>, q: seq<nat>) {
    && OpenWalk(adj, closed, p) && p[0] == w
    && OpenWalk(adj, closed, q) && |q| > 1 && q[0] == q[|q| - 1] == p[|p| - 1]
  }

  ghost predicate HasSuccessorIn(adj: Adjacency, w: nat, O: set<nat>) {
    exists v: nat :: v in O && Edge(adj, w, v)
  }

  /** Every node of O has a successor in O. */
  ghost predicate Trapped(adj: Adjacency, O: set<nat>) {
    forall w: nat {:trigger HasSuccessorIn(adj, w, O)} :: w in O ==> HasSuccessorIn(adj, w, O)
  }

  lemma {:induction false} TrappedWalk(adj: Adjacency, O: set<nat>, w: nat, k: nat) returns (p: seq<nat>)
    requires Trapped(adj, O) && w in O
    ensures |p| == k + 1 && p[0] == w && Walk(adj, p) && AllBelow(p, |adj|)
    ensures forall i :: 0 <= i < |p| ==> p[i] in O
    decreases k
  {
    assert HasSuccessorIn(adj, w, O);
    if k == 0 {
      p := [w];
    } else {
      assert HasSuccessorIn(adj, w, O);
      var v: nat :| v in O && Edge(adj, w, v);
      var rest := TrappedWalk(adj, O, v, k - 1);
      p := [w] + rest;
    }
  }

  /** A long walk among finitely many nodes closes a cycle. */
  lemma TrappedWaits(adj: Adjacency, closed: set<nat>, O: set<nat>, w: nat)
    requires Trapped(adj, O) && w in O && O !! closed
    ensures WaitsOnOpenCycle(adj, closed, w)
  {
    var p := TrappedWalk(adj, O, w, |adj|);
    if Distinct(p) {
      DistinctBelow(p, |adj|);
      assert false;
    }
    var i, j :| 0 <= i < j < |p| && p[i] == p[j];
    var path, cycle := p[..i + 1], p[i..j + 1];
    assert forall k :: 0 <= k < |cycle| ==> cycle[k] == p[i + k];
    forall k | 0 <= k < |cycle| - 1 ensures Edge(adj, cycle[k], cycle[k + 1]) {
      assert Edge(adj, p[i + k], p[i + k + 1]);
    }
    assert WaitsOn(adj, closed, w, path, cycle);
  }

  lemma WaitsTrapped(adj: Adjacency, closed: set<nat>, w: nat, p: seq<nat>, q: seq<nat>)
    requires InRange(adj) && WaitsOn(adj, closed, w, p, q)
    ensures Trapped(adj, Elements(p) + Elements(q))
  {
    forall v: nat | v in Elements(p) + Elements(q)
      ensures HasSuccessorIn(adj, v, Elements(p) + Elements(q))
    {
      if v in q {
        var i :| 0 <= i < |q| && q[i] == v;
        var next := if i == |q| - 1 then 0 else i;
        assert q[next] == v && Edge(adj, q[next], q[next + 1]);
      } else {
        var i :| 0 <= i < |p| && p[i] == v;
        assert i < |p| - 1;
        assert Edge(adj, p[i], p[i + 1]);
      }
    }
  }

  /** The open nodes left once everything actionable is closed and its cascade is done. */
  ghost function Stuck(adj: Adjacency, mask: seq<bool>): set<nat>
    requires InRange(adj)
  {
    var closed, after := ClosedNodes(|adj|, mask), After(|adj|, ActionableNodes(adj, mask), mask);
    set w: nat | w < |adj| && w !in after && w !in Cascade(adj, closed, after)
  }

  lemma StuckIsTrapped(adj: Adjacency, mask: seq<bool>)
    requires InRange(adj)
    ensures Trapped(adj, Stuck(adj, mask))
  {
    var closed, after := ClosedNodes(|adj|, mask), After(|adj|, ActionableNodes(adj, mask), mask);
    CascadeIsLeast(adj, closed, after);
    forall w: nat | w in Stuck(adj, mask)
      ensures HasSuccessorIn(adj, w, Stuck(adj, mask))
    {
      assert !Resolved(adj, w, closed);
      var v: nat :| v in adj[w] && v !in after + Cascade(adj, closed, after);
      assert Edge(adj, w, v) && v in Stuck(adj, mask);
    }
  }

  lemma TrappedUnresolved(adj: Adjacency, O: set<nat>, w: nat, S: set<nat>)
    requires Trapped(adj, O) && w in O && S !! O
    ensures w < |adj| && !Resolved(adj, w, S)
  {
    assert HasSuccessorIn(adj, w, O);
    var v: nat :| v in O && Edge(adj, w, v);
  }

  lemma TrappedIsStuck(adj: Adjacency, mask: seq<bool>, O: set<nat>)
    requires InRange(adj) && Trapped(adj, O) && O !! ClosedNodes(|adj|, mask)
    ensures O <= Stuck(adj, mask)
  {
    var closed, after := ClosedNodes(|adj|, mask), After(|adj|, ActionableNodes(adj, mask), mask);
    var L := Cascade(adj, closed, after);
    forall w: nat | w in O ensures w < |adj| && w !in after {
      TrappedUnresolved(adj, O, w, closed);
    }
    CascadeIsLeast(adj, closed, after);
    forall w: nat | Unblocks(adj, closed, after, L - O, w) ensures w in L - O {
      UnblocksMore(adj, closed, after, L - O, L, w);
      if w in O {
        TrappedUnresolved(adj, O, w, after + (L - O));
      }
    }
    CascadeInduction(adj, closed, after, L - O);
  }

  /** Deadlock: a node stays stuck exactly when it is open and waits on an open cycle. */
  lemma StuckIffWaitsOnOpenCycle(adj: Adjacency, mask: seq<bool>, w: nat)
    requires InRange(adj)
    ensures w in Stuck(adj, mask) <==> WaitsOnOpenCycle(adj, ClosedNodes(|adj|, mask), w)
  {
    var closed := ClosedNodes(|adj|, mask);
    if w in Stuck(adj, mask) {
      StuckIsTrapped(adj, mask);
      TrappedWaits(adj, closed, Stuck(adj, mask), w);
    }
    if WaitsOnOpenCycle(adj, closed, w) {
      var p: seq<nat>, q: seq<nat> :| WaitsOn(adj, closed, w, p, q);
      WaitsTrapped(adj, closed, w, p, q);
      TrappedIsStuck(adj, mask, Elements(p) + Elements(q));
      assert w in Elements(p);
    }
  }

  /** The same for the engine: batch-closing the actionable nodes completes every open node
      but those that wait on an open cycle. */
  lemma BatchCompletesAllButDeadlocked(g: Graph, mask: seq<bool>, w: nat)
    requires g.Valid() && w < |g.adj| && w !in ClosedNodes(|g.adj|, mask)
    ensures var start := ActionableNodes(g.adj, mask);
            w !in start && w !in Outcome(g, start, mask).cascadeIds
            <==> WaitsOnOpenCycle(g.adj, ClosedNodes(|g.adj|, mask), w)
  {
    var start := ActionableNodes(g.adj, mask);
    StuckIffWaitsOnOpenCycle(g.adj, mask, w);
    OutcomeAnswers(g, start, mask);
    assert w in Outcome(g, start, mask).cascadeIds <==> w in Elements(Outcome(g, start, mask).cascadeIds);
  }

  ghost predicate Acyclic(adj: Adjacency) {
    forall q :: Walk(adj, q) && |q| > 1 ==> q[0] != q[|q| - 1]
  }

  /** Without cycles, nothing is ever stuck. */
  lemma AcyclicCompletesAll(g: Graph, mask: seq<bool>, w: nat)
    requires g.Valid() && Acyclic(g.adj) && w < |g.adj| && w !in ClosedNodes(|g.adj|, mask)
    ensures var start := ActionableNodes(g.adj, mask);
            w in start || w in Outcome(g, start, mask).cascadeIds
  {
    BatchCompletesAllButDeadlocked(g, mask, w);
  }
}
