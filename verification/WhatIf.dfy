/** The what-if engine: what becomes workable when issues are closed. */
module WhatIf {
  import opened Sequences
  import opened Graphs
  import opened Reachability
  import opened Unblocking

  datatype WhatIfResult = WhatIfResult(
    directUnblocks: nat, transitiveUnblocks: nat,
    unblockedIds: seq<nat>, cascadeIds: seq<nat>, parallelGain: nat)

  const NO_IMPACT := WhatIfResult(0, 0, [], [], 0)

  // ----- the lists the engine computes

  /** The usable roots, without repeats, in order. */
  ghost function Seed(n: nat, closed: set<nat>, roots: seq<nat>): seq<nat> {
    if roots == [] then []
    else
      var found := Seed(n, closed, roots[..|roots| - 1]);
      var r := roots[|roots| - 1];
      if r < n && r !in found && r !in closed then found + [r] else found
  }

  /** The cascade after looking through the dependents ws. */
  ghost function Visit(adj: Adjacency, closed: set<nat>, cascade: seq<nat>, ws: seq<nat>): seq<nat> {
    if ws == [] then cascade
    else
      var found := Visit(adj, closed, cascade, ws[..|ws| - 1]);
      var w := ws[|ws| - 1];
      if w < |adj| && w !in found && w !in closed && Resolved(adj, w, closed + Elements(found))
      then found + [w] else found
  }

  lemma {:induction false} VisitGrows(adj: Adjacency, closed: set<nat>, cascade: seq<nat>, ws: seq<nat>)
    requires Distinct(cascade) && AllBelow(cascade, |adj|)
    ensures cascade <= Visit(adj, closed, cascade, ws)
    ensures Distinct(Visit(adj, closed, cascade, ws)) && AllBelow(Visit(adj, closed, cascade, ws), |adj|)
    ensures forall w :: w in ws && w < |adj| && w !in closed && Resolved(adj, w, closed + Elements(cascade))
              ==> w in Visit(adj, closed, cascade, ws)
  {
    if ws != [] {
      var front := ws[..|ws| - 1];
      assert ws == front + [ws[|ws| - 1]];
      VisitGrows(adj, closed, cascade, front);
    }
  }

  /** A state of the worklist: the nodes put on it so far, of which the first head are taken off. */
  ghost predicate Draining(adj: Adjacency, rev: Adjacency, cascade: seq<nat>, head: nat) {
    |adj| == |rev| && head <= |cascade| && Distinct(cascade) && AllBelow(cascade, |adj|)
  }

  ghost function Drain(adj: Adjacency, rev: Adjacency, closed: set<nat>, cascade: seq<nat>, head: nat): seq<nat>
    requires Draining(adj, rev, cascade, head)
    decreases |adj| - head
  {
    if head == |cascade| then cascade
    else
      DrainContinues(adj, rev, closed, cascade, head);
      Drain(adj, rev, closed, Visit(adj, closed, cascade, rev[cascade[head]]), head + 1)
  }

  lemma DrainContinues(adj: Adjacency, rev: Adjacency, closed: set<nat>, cascade: seq<nat>, head: nat)
    requires Draining(adj, rev, cascade, head) && head < |cascade|
    ensures head < |adj|
    ensures cascade <= Visit(adj, closed, cascade, rev[cascade[head]])
    ensures Draining(adj, rev, Visit(adj, closed, cascade, rev[cascade[head]]), head + 1)
  {
    DistinctBelow(cascade, |adj|);
    VisitGrows(adj, closed, cascade, rev[cascade[head]]);
  }

  lemma {:induction false} SeedDistinct(n: nat, closed: set<nat>, roots: seq<nat>)
    ensures Distinct(Seed(n, closed, roots)) && AllBelow(Seed(n, closed, roots), n)
  {
    if roots != [] {
      SeedDistinct(n, closed, roots[..|roots| - 1]);
    }
  }

  ghost function CascadeList(adj: Adjacency, rev: Adjacency, closed: set<nat>, roots: seq<nat>): seq<nat>
    requires |adj| == |rev|
  {
    if |adj| == 0 || roots == [] then roots
    else
      SeedDistinct(|adj|, closed, roots);
      Drain(adj, rev, closed, Seed(|adj|, closed, roots), 0)
  }

  /** The dependents of several nodes, one node after the other. */
  ghost function Dependents(rev: Adjacency, nodes: seq<nat>): seq<nat> {
    if nodes == [] then []
    else
      var v := nodes[|nodes| - 1];
      Dependents(rev, nodes[..|nodes| - 1]) + (if v < |rev| then rev[v] else [])
  }

  /** The dependents in ws that become actionable, each listed once. */
  ghost function DirectList(adj: Adjacency, before: set<nat>, after: set<nat>, ws: seq<nat>): seq<nat> {
    if ws == [] then []
    else
      var front, w := ws[..|ws| - 1], ws[|ws| - 1];
      var found := DirectList(adj, before, after, front);
      if w !in front && Unblocks(adj, before, after, {}, w) then found + [w] else found
  }

  ghost function After(n: nat, nodes: seq<nat>, mask: seq<bool>): set<nat> {
    ClosedNodes(n, mask) + set v | v in nodes && v < n
  }

  /** The result of closing `nodes` together. */
  ghost function Outcome(g: Graph, nodes: seq<nat>, mask: seq<bool>): WhatIfResult
    requires |g.adj| == |g.rev|
  {
    var before, after := ClosedNodes(|g.adj|, mask), After(|g.adj|, nodes, mask);
    var direct := DirectList(g.adj, before, after, Dependents(g.rev, nodes));
    var cascade := CascadeList(g.adj, g.rev, after, direct);
    WhatIfResult(|direct|, |cascade|, direct, cascade, if |direct| > 0 then |direct| - 1 else 0)
  }

  // ----- what these lists mean

  lemma {:induction false} DirectListMembers(adj: Adjacency, before: set<nat>, after: set<nat>, ws: seq<nat>)
    ensures Distinct(DirectList(adj, before, after, ws))
    ensures forall w :: w in DirectList(adj, before, after, ws) <==>
              w in ws && Unblocks(adj, before, after, {}, w)
  {
    if ws != [] {
      var front := ws[..|ws| - 1];
      assert ws == front + [ws[|ws| - 1]];
      DirectListMembers(adj, before, after, front);
    }
  }

  lemma {:induction false} DependentsMembers(rev: Adjacency, nodes: seq<nat>, w: nat, p: nat)
    requires p in nodes && Edge(rev, p, w)
    ensures w in Dependents(rev, nodes)
  {
    if p != nodes[|nodes| - 1] {
      DependentsMembers(rev, nodes[..|nodes| - 1], w, p);
    }
  }

  /** The engine's direct list is the first wave: it looks at enough nodes. */
  lemma DirectListComplete(g: Graph, nodes: seq<nat>, mask: seq<bool>)
    requires g.Valid()
    ensures var before, after := ClosedNodes(|g.adj|, mask), After(|g.adj|, nodes, mask);
            Elements(Outcome(g, nodes, mask).unblockedIds) == Direct(g.adj, before, after)
  {
    var before, after := ClosedNodes(|g.adj|, mask), After(|g.adj|, nodes, mask);
    var ws := Dependents(g.rev, nodes);
    DirectListMembers(g.adj, before, after, ws);
    forall w: nat | Unblocks(g.adj, before, after, {}, w) ensures w in ws {
      var p: nat :| p in g.adj[w] && p !in before;
      assert Edge(g.adj, w, p);
      DependentsMembers(g.rev, nodes, w, p);
    }
  }

  /** What holds between two rounds of a worklist whose first k entries are themselves newly closed. */
  ghost predicate DrainInvariant(
    adj: Adjacency, rev: Adjacency, before: set<nat>, after: set<nat>, cascade: seq<nat>, head: nat, k: nat)
  {
    && Draining(adj, rev, cascade, head)
    && StartsClosed(before, after, cascade, k)
    && Schedule(adj, before, after, cascade[k..])
    && Pending(adj, before, after, cascade, head)
  }

  ghost predicate StartsClosed(before: set<nat>, after: set<nat>, cascade: seq<nat>, k: nat) {
    k <= |cascade| && forall i :: 0 <= i < k ==> cascade[i] in after && cascade[i] !in before
  }

  /** Whatever is unblocked but not listed yet still has a prerequisite on the worklist. */
  ghost predicate Pending(adj: Adjacency, before: set<nat>, after: set<nat>, cascade: seq<nat>, head: nat)
    requires head <= |cascade|
  {
    forall w: nat :: Unblocks(adj, before, after, Elements(cascade), w) && w !in cascade ==>
      exists p :: p in adj[w] && p in cascade[head..]
  }

  lemma {:induction false} VisitKeepsSchedule(
    adj: Adjacency, rev: Adjacency, before: set<nat>, after: set<nat>, k: nat, cascade: seq<nat>, v: nat, ws: seq<nat>)
    requires before <= after && Transposed(adj, rev) && v in cascade && v !in before
    requires forall w: nat :: w in ws ==> Edge(rev, v, w)
    requires StartsClosed(before, after, cascade, k) && Schedule(adj, before, after, cascade[k..])
    ensures cascade <= Visit(adj, after, cascade, ws)
    ensures Schedule(adj, before, after, Visit(adj, after, cascade, ws)[k..])
  {
    if ws != [] {
      var front, w := ws[..|ws| - 1], ws[|ws| - 1];
      assert w in ws;
      VisitKeepsSchedule(adj, rev, before, after, k, cascade, v, front);
      var found := Visit(adj, after, cascade, front);
      assert Edge(adj, w, v);
      if Resolved(adj, w, after + Elements(found)) && w !in found && w !in after {
        StartAddsNothing(before, after, found, k);
        ScheduleExtends(adj, before, after, found[k..], w);
        assert (found + [w])[k..] == found[k..] + [w];
      }
    }
  }

  lemma StartAddsNothing(before: set<nat>, after: set<nat>, cascade: seq<nat>, k: nat)
    requires StartsClosed(before, after, cascade, k)
    ensures after + Elements(cascade) == after + Elements(cascade[k..])
  {
    forall x | x in cascade ensures x in after || x in cascade[k..] {
      var i :| 0 <= i < |cascade| && cascade[i] == x;
      assert i >= k ==> cascade[k..][i - k] == x;
    }
  }

  lemma ScheduleExtends(adj: Adjacency, before: set<nat>, after: set<nat>, order: seq<nat>, w: nat)
    requires Schedule(adj, before, after, order) && Unblocks(adj, before, after, Elements(order), w)
    ensures Schedule(adj, before, after, order + [w])
  {
    var next := order + [w];
    forall i | 0 <= i < |next| ensures Unblocks(adj, before, after, Elements(next[..i]), next[i]) {
      assert next[..i] == order[..i];
      assert order[..|order|] == order;
    }
  }

  lemma PendingKept(adj: Adjacency, rev: Adjacency, before: set<nat>, after: set<nat>, cascade: seq<nat>, head: nat)
    requires Transposed(adj, rev) && Draining(adj, rev, cascade, head) && head < |cascade|
    requires Pending(adj, before, after, cascade, head)
    ensures cascade <= Visit(adj, after, cascade, rev[cascade[head]])
    ensures Pending(adj, before, after, Visit(adj, after, cascade, rev[cascade[head]]), head + 1)
  {
    var v := cascade[head];
    var next := Visit(adj, after, cascade, rev[v]);
    VisitGrows(adj, after, cascade, rev[v]);
    forall w: nat | Unblocks(adj, before, after, Elements(next), w) && w !in next
      ensures exists p :: p in adj[w] && p in next[head + 1..]
    {
      if Unblocks(adj, before, after, Elements(cascade), w) {
        var p :| p in adj[w] && p in cascade[head..];
        assert Edge(adj, w, p);
        assert p != v;
        assert p in next[head + 1..];
      } else {
        var p :| p in adj[w] && p !in after + Elements(cascade);
        assert p in next[head + 1..];
      }
    }
  }

  lemma {:induction false} DrainKeeps(
    adj: Adjacency, rev: Adjacency, before: set<nat>, after: set<nat>, cascade: seq<nat>, head: nat, k: nat)
    requires before <= after && Transposed(adj, rev)
    requires DrainInvariant(adj, rev, before, after, cascade, head, k)
    ensures var last := Drain(adj, rev, after, cascade, head);
            cascade <= last && DrainInvariant(adj, rev, before, after, last, |last|, k)
    decreases |adj| - head
  {
    if head < |cascade| {
      var v := cascade[head];
      DrainContinues(adj, rev, after, cascade, head);
      assert v !in before by {
        assert head >= k ==> cascade[k..][head - k] == v;
      }
      VisitKeepsSchedule(adj, rev, before, after, k, cascade, v, rev[v]);
      PendingKept(adj, rev, before, after, cascade, head);
      DrainKeeps(adj, rev, before, after, Visit(adj, after, cascade, rev[v]), head + 1, k);
    }
  }

  lemma {:induction false} SeedKeepsUsable(n: nat, closed: set<nat>, roots: seq<nat>)
    requires Distinct(roots) && AllBelow(roots, n) && forall i :: 0 <= i < |roots| ==> roots[i] !in closed
    ensures Seed(n, closed, roots) == roots
  {
    if roots != [] {
      SeedKeepsUsable(n, closed, roots[..|roots| - 1]);
    }
  }

  /** The first wave is a valid worklist to start from. */
  lemma FirstWaveStarts(
    adj: Adjacency, rev: Adjacency, before: set<nat>, after: set<nat>, direct: seq<nat>)
    requires |adj| == |rev| && Distinct(direct) && Elements(direct) == Direct(adj, before, after)
    ensures Seed(|adj|, after, direct) == direct
    ensures DrainInvariant(adj, rev, before, after, direct, 0, 0)
  {
    forall i | 0 <= i < |direct|
      ensures Unblocks(adj, before, after, {}, direct[i])
      ensures Unblocks(adj, before, after, Elements(direct[..i]), direct[i])
    {
      assert direct[i] in Elements(direct);
      UnblocksMore(adj, before, after, {}, Elements(direct[..i]), direct[i]);
    }
    SeedKeepsUsable(|adj|, after, direct);
    assert direct[0..] == direct;
    forall w: nat | Unblocks(adj, before, after, Elements(direct), w) && w !in direct
      ensures exists p :: p in adj[w] && p in direct[0..]
    {
      assert w !in Direct(adj, before, after);
      var p :| p in adj[w] && p !in after;
      assert p in direct[0..];
    }
  }

  /** An empty worklist leaves nothing out. */
  lemma DrainedIsCascade(
    adj: Adjacency, rev: Adjacency, before: set<nat>, after: set<nat>, cascade: seq<nat>, k: nat)
    requires DrainInvariant(adj, rev, before, after, cascade, |cascade|, k)
    ensures Elements(cascade[k..]) == Cascade(adj, before, after)
  {
    var rest := cascade[k..];
    assert cascade[|cascade|..] == [];
    forall w: nat | Unblocks(adj, before, after, Elements(rest), w) ensures w in rest {
      UnblocksMore(adj, before, after, Elements(rest), Elements(cascade), w);
      var i :| 0 <= i < |cascade| && cascade[i] == w;
      assert rest[i - k] == w;
    }
    ScheduleInCascade(adj, before, after, rest);
    CascadeInduction(adj, before, after, Elements(rest));
  }

  /** A worklist that starts from the first wave ends with the whole cascade. */
  lemma CascadeListCorrect(
    adj: Adjacency, rev: Adjacency, before: set<nat>, after: set<nat>, direct: seq<nat>)
    requires before <= after && Transposed(adj, rev)
    requires Distinct(direct) && Elements(direct) == Direct(adj, before, after)
    ensures var cascade := CascadeList(adj, rev, after, direct);
            && direct <= cascade && Distinct(cascade)
            && Schedule(adj, before, after, cascade)
            && Elements(cascade) == Cascade(adj, before, after)
  {
    FirstWaveStarts(adj, rev, before, after, direct);
    var cascade := CascadeList(adj, rev, after, direct);
    if direct != [] {
      assert direct[0] in Elements(direct);
      DrainKeeps(adj, rev, before, after, direct, 0, 0);
    }
    DrainedIsCascade(adj, rev, before, after, cascade, 0);
    assert cascade[0..] == cascade;
  }

  function Usable(n: nat, closed: set<nat>, roots: seq<nat>): set<nat> {
    set r | r in roots && r < n && r !in closed
  }

  /** The list starts with the usable roots and goes on with exactly what closing them completes. */
  ghost predicate SpreadsFrom(adj: Adjacency, closed: set<nat>, roots: seq<nat>, cascade: seq<nat>) {
    var usable := Usable(|adj|, closed, roots);
    && Distinct(cascade) && |usable| <= |cascade|
    && Elements(cascade[..|usable|]) == usable
    && Schedule(adj, closed, closed + usable, cascade[|usable|..])
    && Elements(cascade[|usable|..]) == Cascade(adj, closed, closed + usable)
  }

  lemma {:induction false} SeedMembers(n: nat, closed: set<nat>, roots: seq<nat>)
    ensures forall r :: r in Seed(n, closed, roots) <==> r in roots && r < n && r !in closed
  {
    if roots != [] {
      var front, r := roots[..|roots| - 1], roots[|roots| - 1];
      assert roots == front + [r];
      SeedMembers(n, closed, front);
    }
  }

  /** Counting listed nodes as closed changes nothing. */
  lemma {:induction false} VisitCountsListed(
    adj: Adjacency, closed: set<nat>, listed: set<nat>, cascade: seq<nat>, ws: seq<nat>)
    requires listed <= Elements(cascade)
    ensures Elements(cascade) <= Elements(Visit(adj, closed, cascade, ws))
    ensures Visit(adj, closed + listed, cascade, ws) == Visit(adj, closed, cascade, ws)
  {
    if ws != [] {
      VisitCountsListed(adj, closed, listed, cascade, ws[..|ws| - 1]);
      var found := Visit(adj, closed, cascade, ws[..|ws| - 1]);
      assert closed + listed + Elements(found) == closed + Elements(found);
    }
  }

  lemma {:induction false} DrainCountsListed(
    adj: Adjacency, rev: Adjacency, closed: set<nat>, listed: set<nat>, cascade: seq<nat>, head: nat)
    requires Draining(adj, rev, cascade, head) && listed <= Elements(cascade)
    ensures Drain(adj, rev, closed + listed, cascade, head) == Drain(adj, rev, closed, cascade, head)
    decreases |adj| - head
  {
    if head < |cascade| {
      DrainContinues(adj, rev, closed, cascade, head);
      VisitCountsListed(adj, closed, listed, cascade, rev[cascade[head]]);
      DrainCountsListed(adj, rev, closed, listed, Visit(adj, closed, cascade, rev[cascade[head]]), head + 1);
    }
  }

  /** The usable roots, taken as newly closed, are a valid worklist to start from. */
  lemma RootsStart(adj: Adjacency, rev: Adjacency, closed: set<nat>, seeds: seq<nat>)
    requires |adj| == |rev| && Distinct(seeds) && AllBelow(seeds, |adj|)
    requires forall i :: 0 <= i < |seeds| ==> seeds[i] !in closed
    ensures DrainInvariant(adj, rev, closed, closed + Elements(seeds), seeds, 0, |seeds|)
  {
    var after := closed + Elements(seeds);
    assert seeds[0..] == seeds;
    assert seeds[|seeds|..] == [];
    forall w: nat | Unblocks(adj, closed, after, Elements(seeds), w) && w !in seeds
      ensures exists p :: p in adj[w] && p in seeds[0..]
    {
      var p :| p in adj[w] && p !in closed;
      assert p in seeds[0..];
    }
  }

  lemma DrainSpreads(adj: Adjacency, rev: Adjacency, closed: set<nat>, seeds: seq<nat>)
    requires Transposed(adj, rev) && Distinct(seeds) && AllBelow(seeds, |adj|)
    requires forall i :: 0 <= i < |seeds| ==> seeds[i] !in closed
    ensures var cascade, after := Drain(adj, rev, closed, seeds, 0), closed + Elements(seeds);
            && Distinct(cascade) && seeds <= cascade
            && Schedule(adj, closed, after, cascade[|seeds|..])
            && Elements(cascade[|seeds|..]) == Cascade(adj, closed, after)
  {
    var after := closed + Elements(seeds);
    RootsStart(adj, rev, closed, seeds);
    DrainKeeps(adj, rev, closed, after, seeds, 0, |seeds|);
    DrainCountsListed(adj, rev, closed, Elements(seeds), seeds, 0);
    DrainedIsCascade(adj, rev, closed, after, Drain(adj, rev, closed, seeds, 0), |seeds|);
  }

  lemma SeedIsUsable(n: nat, closed: set<nat>, roots: seq<nat>)
    ensures Elements(Seed(n, closed, roots)) == Usable(n, closed, roots)
    ensures |Usable(n, closed, roots)| == |Seed(n, closed, roots)|
  {
    SeedDistinct(n, closed, roots);
    SeedMembers(n, closed, roots);
    assert Elements(Seed(n, closed, roots)) == Usable(n, closed, roots);
    DistinctSize(Seed(n, closed, roots));
  }

  /** What the worklist lists, whatever roots it is started from. */
  lemma CascadeListSpreads(adj: Adjacency, rev: Adjacency, closed: set<nat>, roots: seq<nat>)
    requires Transposed(adj, rev) && |adj| > 0
    ensures SpreadsFrom(adj, closed, roots, CascadeList(adj, rev, closed, roots))
  {
    var seeds, cascade := Seed(|adj|, closed, roots), CascadeList(adj, rev, closed, roots);
    SeedDistinct(|adj|, closed, roots);
    SeedMembers(|adj|, closed, roots);
    SeedIsUsable(|adj|, closed, roots);
    DrainSpreads(adj, rev, closed, seeds);
    assert cascade == Drain(adj, rev, closed, seeds, 0);
    assert cascade[..|seeds|] == seeds;
  }

  /** The engine's answer: `unblockedIds` is the first wave, `cascadeIds` starts with it, lists exactly
      the least set of newly completable nodes, once each, and can be completed from left to right. */
  ghost predicate Answers(adj: Adjacency, before: set<nat>, after: set<nat>, r: WhatIfResult) {
    && Distinct(r.cascadeIds)
    && r.unblockedIds <= r.cascadeIds
    && Elements(r.unblockedIds) == Direct(adj, before, after)
    && Elements(r.cascadeIds) == Cascade(adj, before, after)
    && Schedule(adj, before, after, r.cascadeIds)
    && r.directUnblocks == |Direct(adj, before, after)|
    && r.transitiveUnblocks == |Cascade(adj, before, after)|
    && r.parallelGain == if r.directUnblocks == 0 then 0 else r.directUnblocks - 1
  }

  lemma OutcomeAnswers(g: Graph, nodes: seq<nat>, mask: seq<bool>)
    requires g.Valid()
    ensures Answers(g.adj, ClosedNodes(|g.adj|, mask), After(|g.adj|, nodes, mask), Outcome(g, nodes, mask))
  {
    var before, after := ClosedNodes(|g.adj|, mask), After(|g.adj|, nodes, mask);
    var r := Outcome(g, nodes, mask);
    DirectListMembers(g.adj, before, after, Dependents(g.rev, nodes));
    DirectListComplete(g, nodes, mask);
    CascadeListCorrect(g.adj, g.rev, before, after, r.unblockedIds);
    DistinctSize(r.unblockedIds);
    DistinctSize(r.cascadeIds);
  }

  /** Once the batch and its cascade are closed, no open node is actionable that was not actionable before. */
  lemma OutcomeSaturates(g: Graph, nodes: seq<nat>, mask: seq<bool>, finished: seq<bool>, w: nat)
    requires g.Valid() && w < |g.adj|
    requires ClosedNodes(|g.adj|, finished)
             == After(|g.adj|, nodes, mask) + Elements(Outcome(g, nodes, mask).cascadeIds)
    requires w !in ClosedNodes(|g.adj|, finished) && IsActionable(g.adj, w, finished)
    ensures IsActionable(g.adj, w, mask)
  {
    OutcomeAnswers(g, nodes, mask);
    ActionableIsResolved(g.adj, w, finished);
    ActionableIsResolved(g.adj, w, mask);
    NothingNewlyActionable(g.adj, ClosedNodes(|g.adj|, mask), After(|g.adj|, nodes, mask), w);
  }

  /** Nodes that are already closed or do not exist have no impact. */
  lemma NoImpact(g: Graph, nodes: seq<nat>, mask: seq<bool>)
    requires g.Valid()
    requires forall v :: v in nodes && v < |g.adj| ==> v in ClosedNodes(|g.adj|, mask)
    ensures Outcome(g, nodes, mask) == NO_IMPACT
  {
    var before := ClosedNodes(|g.adj|, mask);
    assert After(|g.adj|, nodes, mask) == before;
    CascadeOfNothing(g.adj, before);
    OutcomeAnswers(g, nodes, mask);
  }

  /** Only which nodes a batch names matters, not their order or repetition. */
  lemma BatchIsASet(g: Graph, nodes: seq<nat>, others: seq<nat>, mask: seq<bool>)
    requires g.Valid() && forall v :: v in nodes <==> v in others
    ensures var r, q := Outcome(g, nodes, mask), Outcome(g, others, mask);
            && Elements(r.cascadeIds) == Elements(q.cascadeIds)
            && Elements(r.unblockedIds) == Elements(q.unblockedIds)
            && r.transitiveUnblocks == q.transitiveUnblocks && r.directUnblocks == q.directUnblocks
  {
    assert After(|g.adj|, nodes, mask) == After(|g.adj|, others, mask);
    OutcomeAnswers(g, nodes, mask);
    OutcomeAnswers(g, others, mask);
  }

  /** A larger batch completes at least as much, counting the batch itself. */
  lemma BatchMonotone(g: Graph, nodes: seq<nat>, more: seq<nat>, mask: seq<bool>)
    requires g.Valid() && forall v :: v in nodes ==> v in more
    ensures Elements(nodes) + Elements(Outcome(g, nodes, mask).cascadeIds)
            <= Elements(more) + Elements(Outcome(g, more, mask).cascadeIds)
  {
    var n := |g.adj|;
    var before := ClosedNodes(n, mask);
    OutcomeAnswers(g, nodes, mask);
    OutcomeAnswers(g, more, mask);
    CascadeMonotone(g.adj, before, After(n, nodes, mask), After(n, more, mask));
    CascadeIsOpen(g.adj, before, After(n, nodes, mask));
  }

  /** Closing one batch, completing its cascade, and then closing a second batch
      completes exactly what closing both at once completes. */
  lemma BatchInTwoRounds(g: Graph, first: seq<nat>, second: seq<nat>, mask: seq<bool>, middle: seq<bool>)
    requires g.Valid()
    requires ClosedNodes(|g.adj|, middle)
             == After(|g.adj|, first, mask) + Elements(Outcome(g, first, mask).cascadeIds)
    ensures After(|g.adj|, second, middle) + Elements(Outcome(g, second, middle).cascadeIds)
            == After(|g.adj|, first + second, mask) + Elements(Outcome(g, first + second, mask).cascadeIds)
  {
    var n := |g.adj|;
    var before, after := ClosedNodes(n, mask), After(n, first, mask);
    var others := set v | v in second && v < n;
    assert Elements(Outcome(g, first, mask).cascadeIds) == Cascade(g.adj, before, after) by {
      OutcomeAnswers(g, first, mask);
    }
    assert Elements(Outcome(g, second, middle).cascadeIds)
        == Cascade(g.adj, ClosedNodes(n, middle), After(n, second, middle)) by {
      OutcomeAnswers(g, second, middle);
    }
    assert Elements(Outcome(g, first + second, mask).cascadeIds)
        == Cascade(g.adj, before, After(n, first + second, mask)) by {
      OutcomeAnswers(g, first + second, mask);
    }
    assert After(n, first + second, mask) == after + others;
    assert After(n, second, middle) == ClosedNodes(n, middle) + others;
    CascadeTwoRounds(g.adj, before, after, others);
  }

  /** Two graphs with the same nodes and the same edges give the same impact, whatever the edge order. */
  lemma OutcomeOfEdgeSet(g: Graph, h: Graph, nodes: seq<nat>, mask: seq<bool>)
    requires g.Valid() && h.Valid() && |g.adj| == |h.adj|
    requires forall u: nat, v: nat :: Edge(g.adj, u, v) <==> Edge(h.adj, u, v)
    ensures var r, q := Outcome(g, nodes, mask), Outcome(h, nodes, mask);
            && Elements(r.cascadeIds) == Elements(q.cascadeIds)
            && Elements(r.unblockedIds) == Elements(q.unblockedIds)
            && r.transitiveUnblocks == q.transitiveUnblocks && r.directUnblocks == q.directUnblocks
  {
    CascadeOfEdgeSet(g.adj, h.adj, ClosedNodes(|g.adj|, mask), After(|g.adj|, nodes, mask));
    OutcomeAnswers(g, nodes, mask);
    OutcomeAnswers(h, nodes, mask);
  }

  /** The cascade of a batch lies among the nodes that can reach a newly closed node, and each member
      gets there through cascade members only. */
  lemma OutcomeIsLocal(g: Graph, nodes: seq<nat>, mask: seq<bool>, w: nat) returns (goal: nat, path: seq<nat>)
    requires g.Valid() && w in Outcome(g, nodes, mask).cascadeIds
    ensures goal in nodes && goal !in ClosedNodes(|g.adj|, mask) && w !in nodes
    ensures WalkBetween(g.adj, path, w, goal)
    ensures forall i :: 0 <= i < |path| - 1 ==> path[i] in Outcome(g, nodes, mask).cascadeIds
  {
    var before, after := ClosedNodes(|g.adj|, mask), After(|g.adj|, nodes, mask);
    OutcomeAnswers(g, nodes, mask);
    CascadeIsLocal(g.adj, before, after);
    CascadeIsOpen(g.adj, before, after);
    assert w in Elements(Outcome(g, nodes, mask).cascadeIds);
    path :| LeadsToClosed(g.adj, path, w, Cascade(g.adj, before, after), after - before);
    goal := path[|path| - 1];
  }

  // ----- the operations

  /** All prerequisites of node are closed. */
  predicate IsActionable(adj: Adjacency, node: nat, mask: seq<bool>) {
    node < |adj| ==> forall p :: p in adj[node] ==> p < |mask| && mask[p]
  }

  lemma ActionableIsResolved(adj: Adjacency, node: nat, mask: seq<bool>)
    requires InRange(adj) && node < |adj|
    ensures IsActionable(adj, node, mask) <==> Resolved(adj, node, ClosedNodes(|adj|, mask))
  {
    forall p | p in adj[node] ensures p < |adj| {
      assert Edge(adj, node, p);
    }
  }

  /** The mask extended or cut to n entries, as a buffer of its own. */
  method Resized(mask: seq<bool>, n: nat) returns (closed: array<bool>)
    ensures fresh(closed) && closed.Length == n
    ensures forall i :: 0 <= i < n ==> (closed[i] <==> i in ClosedNodes(n, mask))
  {
    closed := new bool[n](i => 0 <= i < |mask| && mask[i]);
  }

  method VisitDependents(
    adj: Adjacency, ws: seq<nat>, closed: array<bool>, visited: array<bool>,
    cascade: seq<nat>, queue: seq<nat>, ghost done: set<nat>, ghost initial: set<nat>)
    returns (longer: seq<nat>, grown: seq<nat>)
    requires InRange(adj) && closed.Length == visited.Length == |adj| && closed != visited
    requires AllBelow(ws, |adj|) && Distinct(cascade) && AllBelow(cascade, |adj|)
    requires done <= Elements(cascade)
    requires forall x: nat :: x < |adj| ==> (visited[x] <==> x in cascade)
    requires forall x: nat :: x < |adj| ==> (closed[x] <==> x in initial + done)
    modifies visited
    ensures longer == Visit(adj, initial, cascade, ws)
    ensures cascade <= longer && grown == queue + longer[|cascade|..]
    ensures forall x: nat :: x < |adj| ==> (visited[x] <==> x in longer)
  {
    longer, grown := cascade, queue;
    for k := 0 to |ws|
      invariant longer == Visit(adj, initial, cascade, ws[..k])
      invariant cascade <= longer && grown == queue + longer[|cascade|..]
      invariant Distinct(longer) && AllBelow(longer, |adj|)
      invariant forall x: nat :: x < |adj| ==> (visited[x] <==> x in longer)
    {
      var w := ws[k];
      assert ws[..k + 1][..k] == ws[..k];
      if visited[w] || closed[w] {
        continue;
      }
      forall p | p in adj[w] ensures p < |adj| {
        assert Edge(adj, w, p);
      }
      var allResolved := forall p :: p in adj[w] ==> closed[p] || visited[p];
      assert allResolved <==> Resolved(adj, w, initial + Elements(longer));
      if allResolved {
        visited[w] := true;
        longer := longer + [w];
        grown := grown + [w];
      }
    }
    assert ws[..|ws|] == ws;
  }

  method SeedQueue(roots: seq<nat>, closed: array<bool>, visited: array<bool>, ghost initial: set<nat>)
    returns (cascade: seq<nat>)
    requires closed != visited && closed.Length == visited.Length
    requires forall x: nat :: x < closed.Length ==> (closed[x] <==> x in initial)
    requires forall x: nat :: x < visited.Length ==> !visited[x]
    modifies visited
    ensures cascade == Seed(closed.Length, initial, roots)
    ensures forall x: nat :: x < visited.Length ==> (visited[x] <==> x in cascade)
  {
    cascade := [];
    for i := 0 to |roots|
      invariant cascade == Seed(closed.Length, initial, roots[..i])
      invariant forall x: nat :: x < visited.Length ==> (visited[x] <==> x in cascade)
    {
      var root := roots[i];
      assert roots[..i + 1][..i] == roots[..i];
      if root < closed.Length && !visited[root] && !closed[root] {
        visited[root] := true;
        cascade := cascade + [root];
      }
    }
    assert roots[..|roots|] == roots;
  }

  lemma DependentsInRange(g: Graph, v: nat)
    requires g.Valid() && v < |g.rev|
    ensures AllBelow(g.rev[v], |g.adj|)
    ensures forall w: nat :: w in g.rev[v] ==> Edge(g.adj, w, v)
  {
    forall i | 0 <= i < |g.rev[v]| ensures g.rev[v][i] < |g.adj| {
      assert Edge(g.rev, v, g.rev[v][i]) && Edge(g.adj, g.rev[v][i], v);
    }
    forall w: nat | w in g.rev[v] ensures Edge(g.adj, w, v) {
      assert Edge(g.rev, v, w);
    }
  }

  method DrainQueue(
    adj: Adjacency, rev: Adjacency, closed: array<bool>, visited: array<bool>,
    seeds: seq<nat>, ghost initial: set<nat>)
    returns (cascade: seq<nat>)
    requires InRange(adj) && Draining(adj, rev, seeds, 0)
    requires forall v :: 0 <= v < |rev| ==> AllBelow(rev[v], |adj|)
    requires closed != visited && closed.Length == visited.Length == |adj|
    requires forall x: nat :: x < |adj| ==> (closed[x] <==> x in initial)
    requires forall x: nat :: x < |adj| ==> (visited[x] <==> x in seeds)
    modifies closed, visited
    ensures cascade == Drain(adj, rev, initial, seeds, 0)
  {
    cascade := seeds;
    var queue := seeds;
    ghost var head: nat := 0;
    while queue != []
      invariant Draining(adj, rev, cascade, head) && queue == cascade[head..]
      invariant Drain(adj, rev, initial, cascade, head)
                == Drain(adj, rev, initial, seeds, 0)
      invariant forall x: nat :: x < |adj| ==> (visited[x] <==> x in cascade)
      invariant forall x: nat :: x < |adj| ==> (closed[x] <==> x in initial + Elements(cascade[..head]))
      decreases |adj| - head
    {
      var v := queue[0];
      queue := queue[1..];
      ghost var done := cascade[..head + 1];
      assert v == cascade[head] && done == cascade[..head] + [v];
      closed[v] := true;
      DrainContinues(adj, rev, initial, cascade, head);
      cascade, queue := VisitDependents(
        adj, rev[v], closed, visited, cascade, queue, Elements(done), initial);
      assert cascade[..head + 1] == done;
      head := head + 1;
    }
  }

  method CountCascade(graph: DiGraph, roots: seq<nat>, initialClosed: seq<bool>) returns (cascade: seq<nat>)
    requires graph.Valid()
    ensures cascade == CascadeList(graph.adj, graph.revAdj, ClosedNodes(|graph.adj|, initialClosed), roots)
    ensures |graph.adj| > 0 ==> SpreadsFrom(graph.adj, ClosedNodes(|graph.adj|, initialClosed), roots, cascade)
  {
    var n := graph.Len();
    if n > 0 {
      CascadeListSpreads(graph.adj, graph.revAdj, ClosedNodes(n, initialClosed), roots);
    }
    if n == 0 || roots == [] {
      return roots;
    }
    ghost var initial := ClosedNodes(n, initialClosed);
    var closed := Resized(initialClosed, n);
    var visited := new bool[n](_ => false);
    var seeds := SeedQueue(roots, closed, visited, initial);
    SeedDistinct(n, initial, roots);
    forall v: nat | v < n ensures AllBelow(graph.revAdj[v], n) {
      DependentsInRange(graph.View(), v);
    }
    cascade := DrainQueue(graph.adj, graph.revAdj, closed, visited, seeds, initial);
  }

  /** The engine's test on a dependent that is still open. */
  lemma UnblockTest(adj: Adjacency, w: nat, closedSet: seq<bool>, newClosed: seq<bool>)
    requires InRange(adj) && w < |adj| == |newClosed| && !newClosed[w]
    ensures Unblocks(adj, ClosedNodes(|adj|, closedSet), ClosedNodes(|adj|, newClosed), {}, w)
            <==> !IsActionable(adj, w, closedSet) && IsActionable(adj, w, newClosed)
  {
  }

  method DirectDependents(adj: Adjacency, dependents: seq<nat>, closedSet: seq<bool>, newClosed: seq<bool>)
    returns (direct: seq<nat>)
    requires InRange(adj) && AllBelow(dependents, |adj|) && Distinct(dependents) && |newClosed| == |adj|
    ensures direct == DirectList(adj, ClosedNodes(|adj|, closedSet), ClosedNodes(|adj|, newClosed), dependents)
  {
    ghost var before, after := ClosedNodes(|adj|, closedSet), ClosedNodes(|adj|, newClosed);
    direct := [];
    for k := 0 to |dependents|
      invariant direct == DirectList(adj, before, after, dependents[..k])
    {
      var dependent := dependents[k];
      assert dependents[..k + 1][..k] == dependents[..k];
      if newClosed[dependent] {
        continue;
      }
      UnblockTest(adj, dependent, closedSet, newClosed);
      var wasBlocked := !IsActionable(adj, dependent, closedSet);
      var nowUnblocked := IsActionable(adj, dependent, newClosed);
      if wasBlocked && nowUnblocked {
        direct := direct + [dependent];
      }
    }
    assert dependents[..|dependents|] == dependents;
  }

  method WhatIfClose(graph: DiGraph, node: nat, closedSet: seq<bool>) returns (r: WhatIfResult)
    requires graph.Valid()
    ensures r == Outcome(graph.View(), [node], closedSet)
    ensures var n := |graph.adj|;
            Answers(graph.adj, ClosedNodes(n, closedSet), After(n, [node], closedSet), r)
  {
    var n := graph.Len();
    if node >= n || (node < |closedSet| && closedSet[node]) {
      NoImpact(graph.View(), [node], closedSet);
      OutcomeAnswers(graph.View(), [node], closedSet);
      return NO_IMPACT;
    }
    var newClosed := seq(n, i => i == node || (0 <= i < |closedSet| && closedSet[i]));
    assert ClosedNodes(n, newClosed) == After(n, [node], closedSet);
    assert Dependents(graph.revAdj, [node]) == graph.revAdj[node];
    DependentsInRange(graph.View(), node);
    var direct := DirectDependents(graph.adj, graph.PredecessorsSlice(node), closedSet, newClosed);
    var cascade := CountCascade(graph, direct, newClosed);
    r := WhatIfResult(|direct|, |cascade|, direct, cascade, if |direct| > 0 then |direct| - 1 else 0);
    OutcomeAnswers(graph.View(), [node], closedSet);
  }

  /** One node of a batch: its dependents that no earlier node of the batch has shown yet. */
  method BatchDependents(
    adj: Adjacency, dependents: seq<nat>, closedSet: seq<bool>, newClosed: seq<bool>,
    seen: array<bool>, earlier: seq<nat>, ghost looked: seq<nat>) returns (direct: seq<nat>)
    requires InRange(adj) && AllBelow(dependents, |adj|) && |adj| == |newClosed| == seen.Length
    requires forall x: nat :: x < seen.Length && !newClosed[x] ==> (seen[x] <==> x in looked)
    requires earlier == DirectList(adj, ClosedNodes(|adj|, closedSet), ClosedNodes(|adj|, newClosed), looked)
    modifies seen
    ensures forall x: nat :: x < seen.Length && !newClosed[x] ==> (seen[x] <==> x in looked + dependents)
    ensures direct == DirectList(
              adj, ClosedNodes(|adj|, closedSet), ClosedNodes(|adj|, newClosed), looked + dependents)
  {
    ghost var before, after := ClosedNodes(|adj|, closedSet), ClosedNodes(|adj|, newClosed);
    direct := earlier;
    assert looked + dependents[..0] == looked;
    for k := 0 to |dependents|
      invariant forall x: nat :: x < seen.Length && !newClosed[x] ==> (seen[x] <==> x in looked + dependents[..k])
      invariant direct == DirectList(adj, before, after, looked + dependents[..k])
    {
      var dependent := dependents[k];
      assert looked + dependents[..k + 1] == (looked + dependents[..k]) + [dependent];
      if seen[dependent] || newClosed[dependent] {
        continue;
      }
      seen[dependent] := true;
      UnblockTest(adj, dependent, closedSet, newClosed);
      var wasBlocked := !IsActionable(adj, dependent, closedSet);
      var nowUnblocked := IsActionable(adj, dependent, newClosed);
      if wasBlocked && nowUnblocked {
        direct := direct + [dependent];
      }
    }
    assert dependents[..|dependents|] == dependents;
  }

  lemma DependentsPush(rev: Adjacency, nodes: seq<nat>, v: nat)
    ensures Dependents(rev, nodes + [v])
            == if v < |rev| then Dependents(rev, nodes) + rev[v] else Dependents(rev, nodes)
  {
  }

  method BatchDirect(adj: Adjacency, rev: Adjacency, nodes: seq<nat>, closedSet: seq<bool>, newClosed: seq<bool>)
    returns (direct: seq<nat>)
    requires InRange(adj) && |newClosed| == |adj| == |rev|
    requires forall v :: 0 <= v < |rev| ==> AllBelow(rev[v], |adj|)
    ensures direct == DirectList(
              adj, ClosedNodes(|adj|, closedSet), ClosedNodes(|adj|, newClosed), Dependents(rev, nodes))
  {
    ghost var before, after := ClosedNodes(|adj|, closedSet), ClosedNodes(|adj|, newClosed);
    var seen := new bool[|adj|](_ => false);
    direct := [];
    for i := 0 to |nodes|
      invariant forall x: nat :: x < |adj| && !newClosed[x] ==> (seen[x] <==> x in Dependents(rev, nodes[..i]))
      invariant direct == DirectList(adj, before, after, Dependents(rev, nodes[..i]))
    {
      assert nodes[..i + 1] == nodes[..i] + [nodes[i]];
      DependentsPush(rev, nodes[..i], nodes[i]);
      if nodes[i] >= |adj| {
        continue;
      }
      direct := BatchDependents(
        adj, rev[nodes[i]], closedSet, newClosed, seen, direct, Dependents(rev, nodes[..i]));
    }
    assert nodes[..|nodes|] == nodes;
  }

  method WhatIfCloseBatch(graph: DiGraph, nodes: seq<nat>, closedSet: seq<bool>) returns (r: WhatIfResult)
    requires graph.Valid()
    ensures r == Outcome(graph.View(), nodes, closedSet)
    ensures var n := |graph.adj|;
            Answers(graph.adj, ClosedNodes(n, closedSet), After(n, nodes, closedSet), r)
  {
    var n := graph.Len();
    if n == 0 || nodes == [] {
      NoImpact(graph.View(), nodes, closedSet);
      OutcomeAnswers(graph.View(), nodes, closedSet);
      return NO_IMPACT;
    }
    var newClosed := BatchClosed(n, nodes, closedSet);
    forall v: nat | v < n ensures AllBelow(graph.revAdj[v], n) {
      DependentsInRange(graph.View(), v);
    }
    var direct := BatchDirect(graph.adj, graph.revAdj, nodes, closedSet, newClosed);
    var cascade := CountCascade(graph, direct, newClosed);
    r := WhatIfResult(|direct|, |cascade|, direct, cascade, if |direct| > 0 then |direct| - 1 else 0);
    OutcomeAnswers(graph.View(), nodes, closedSet);
  }

  method BatchClosed(n: nat, nodes: seq<nat>, closedSet: seq<bool>) returns (newClosed: seq<bool>)
    ensures |newClosed| == n && ClosedNodes(n, newClosed) == After(n, nodes, closedSet)
  {
    newClosed := seq(n, i => 0 <= i < |closedSet| && closedSet[i]);
    for k := 0 to |nodes|
      invariant |newClosed| == n && ClosedNodes(n, newClosed) == After(n, nodes[..k], closedSet)
    {
      assert nodes[..k + 1] == nodes[..k] + [nodes[k]];
      ghost var was := newClosed;
      if nodes[k] < n {
        newClosed := newClosed[nodes[k] := true];
      }
      forall x: nat ensures x in ClosedNodes(n, newClosed) <==> x in After(n, nodes[..k + 1], closedSet) {
        assert x in ClosedNodes(n, was) <==> x in After(n, nodes[..k], closedSet);
      }
    }
    assert nodes[..|nodes|] == nodes;
  }
}
