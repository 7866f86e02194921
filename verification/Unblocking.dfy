/** What closing issues unblocks, as a least set: the meaning of the what-if engine. */
module Unblocking {
  import opened Sequences
  import opened Graphs
  import opened Reachability

  /** The nodes a closed mask marks; a missing entry is open and an extra one is ignored. */
  function ClosedNodes(n: nat, mask: seq<bool>): set<nat> {
    set i: nat | i < n && i < |mask| && mask[i]
  }

  /** Every prerequisite of w lies in S. */
  predicate Resolved(adj: Adjacency, w: nat, S: set<nat>)
    requires w < |adj|
  {
    forall p :: p in adj[w] ==> p in S
  }

  /** With X assumed done, w is newly completable: it was blocked while only `before` was closed,
      and nothing blocks it any more. */
  predicate Unblocks(adj: Adjacency, before: set<nat>, after: set<nat>, X: set<nat>, w: nat) {
    w < |adj| && w !in after && !Resolved(adj, w, before) && Resolved(adj, w, after + X)
  }

  ghost predicate Saturated(adj: Adjacency, before: set<nat>, after: set<nat>, X: set<nat>) {
    forall w: nat :: Unblocks(adj, before, after, X, w) ==> w in X
  }

  /** Everything that must follow when the closed set grows from `before` to `after`. */
  ghost function Cascade(adj: Adjacency, before: set<nat>, after: set<nat>): set<nat> {
    set w: nat | w < |adj| && Forced(adj, before, after, w)
  }

  ghost predicate Forced(adj: Adjacency, before: set<nat>, after: set<nat>, w: nat) {
    forall X: set<nat> :: Saturated(adj, before, after, X) ==> w in X
  }

  /** The first wave: unblocked by `after` alone. */
  ghost function Direct(adj: Adjacency, before: set<nat>, after: set<nat>): set<nat> {
    set w: nat | w < |adj| && Unblocks(adj, before, after, {}, w)
  }

  /** To show that a cascade lies in P, show that P survives every single unblocking. */
  lemma CascadeInduction(adj: Adjacency, before: set<nat>, after: set<nat>, P: set<nat>)
    requires Saturated(adj, before, after, P)
    ensures Cascade(adj, before, after) <= P
  {
  }

  /** The rule is monotone. */
  lemma UnblocksMore(adj: Adjacency, before: set<nat>, after: set<nat>, X: set<nat>, Y: set<nat>, w: nat)
    requires X <= Y && Unblocks(adj, before, after, X, w)
    ensures Unblocks(adj, before, after, Y, w)
  {
  }

  /** The cascade is the least saturated set. */
  lemma CascadeIsLeast(adj: Adjacency, before: set<nat>, after: set<nat>)
    ensures Saturated(adj, before, after, Cascade(adj, before, after))
    ensures forall X :: Saturated(adj, before, after, X) ==> Cascade(adj, before, after) <= X
  {
    var L := Cascade(adj, before, after);
    forall w: nat | Unblocks(adj, before, after, L, w) ensures w in L {
      forall X: set<nat> | Saturated(adj, before, after, X) ensures w in X {
        CascadeInduction(adj, before, after, X);
        UnblocksMore(adj, before, after, L, X, w);
      }
    }
  }

  /** Every member of the cascade is there because the rule puts it there. */
  lemma CascadeJustified(adj: Adjacency, before: set<nat>, after: set<nat>)
    ensures forall w: nat :: w in Cascade(adj, before, after) <==>
              Unblocks(adj, before, after, Cascade(adj, before, after), w)
  {
    var L := Cascade(adj, before, after);
    CascadeIsLeast(adj, before, after);
    var step := set w | w in L && Unblocks(adj, before, after, L, w);
    forall w: nat | Unblocks(adj, before, after, step, w) ensures w in step {
      UnblocksMore(adj, before, after, step, L, w);
    }
    CascadeInduction(adj, before, after, step);
  }

  /** After the cascade is done too, nothing that was blocked is left unblocked. */
  lemma NothingNewlyActionable(adj: Adjacency, before: set<nat>, after: set<nat>, w: nat)
    requires w < |adj| && w !in after + Cascade(adj, before, after)
    requires Resolved(adj, w, after + Cascade(adj, before, after))
    ensures Resolved(adj, w, before)
  {
  }

  /** Closing more issues completes more. */
  lemma CascadeMonotone(adj: Adjacency, before: set<nat>, small: set<nat>, large: set<nat>)
    requires small <= large
    ensures small + Cascade(adj, before, small) <= large + Cascade(adj, before, large)
  {
    var total := large + Cascade(adj, before, large);
    var P := total - small;
    forall w: nat | Unblocks(adj, before, small, P, w) ensures w in P {
      assert Resolved(adj, w, total);
      if w !in large {
        CascadeIsLeast(adj, before, large);
        assert Unblocks(adj, before, large, Cascade(adj, before, large), w);
      }
    }
    CascadeInduction(adj, before, small, P);
  }

  /** Closing in two rounds, with all of the first cascade done in between,
      completes exactly what closing everything at once completes. */
  lemma CascadeTwoRounds(adj: Adjacency, before: set<nat>, first: set<nat>, second: set<nat>)
    requires before <= first
    ensures var middle := first + Cascade(adj, before, first);
            middle + second + Cascade(adj, middle, middle + second)
            == first + second + Cascade(adj, before, first + second)
  {
    var middle := first + Cascade(adj, before, first);
    var after := middle + second;
    var once := first + second;
    var L, M := Cascade(adj, before, once), Cascade(adj, middle, after);
    CascadeIsLeast(adj, before, first);
    CascadeIsLeast(adj, before, once);
    CascadeIsLeast(adj, middle, after);
    CascadeMonotone(adj, before, first, once);
    // at once, at least as much as in two rounds
    forall w: nat | Unblocks(adj, middle, after, once + L, w) ensures w in once + L {
      assert after + (once + L) == once + L;
      if w !in once {
        assert !Resolved(adj, w, before);
        assert Unblocks(adj, before, once, L, w);
      }
    }
    CascadeInduction(adj, middle, after, once + L);
    // in two rounds, at least as much as at once
    forall w: nat | Unblocks(adj, before, once, after + M, w) ensures w in after + M {
      assert once + (after + M) == after + M;
      if w !in after {
        if Resolved(adj, w, middle) {
          NothingNewlyActionable(adj, before, first, w);
        }
        assert Unblocks(adj, middle, after, M, w);
      }
    }
    CascadeInduction(adj, before, once, after + M);
  }

  /** A cascade depends on the edges only, not on the order in which they were added. */
  lemma CascadeOfEdgeSet(adj: Adjacency, other: Adjacency, before: set<nat>, after: set<nat>)
    requires |adj| == |other| && forall u: nat, v: nat :: Edge(adj, u, v) <==> Edge(other, u, v)
    ensures Cascade(adj, before, after) == Cascade(other, before, after)
    ensures Direct(adj, before, after) == Direct(other, before, after)
  {
    forall w: nat, S: set<nat> | w < |adj| ensures Resolved(adj, w, S) <==> Resolved(other, w, S) {
      forall p ensures p in adj[w] <==> p in other[w] {
        assert Edge(adj, w, p) <==> Edge(other, w, p);
      }
    }
    assert forall X: set<nat> :: Saturated(adj, before, after, X) <==> Saturated(other, before, after, X);
  }

  /** Every member of the cascade depends, through members of the cascade only, on something just closed. */
  lemma CascadeIsLocal(adj: Adjacency, before: set<nat>, after: set<nat>)
    requires before <= after
    ensures forall w: nat :: w in Cascade(adj, before, after) ==>
              exists p :: LeadsToClosed(adj, p, w, Cascade(adj, before, after), after - before)
  {
    var L := Cascade(adj, before, after);
    var local := set w | w in L && exists p :: LeadsToClosed(adj, p, w, L, after - before);
    CascadeIsLeast(adj, before, after);
    forall w: nat | Unblocks(adj, before, after, local, w) ensures w in local {
      UnblocksMore(adj, before, after, local, L, w);
      var q: nat :| q in adj[w] && q !in before;
      assert Edge(adj, w, q);
      if q in after {
        assert LeadsToClosed(adj, [w, q], w, L, after - before);
      } else {
        var p :| LeadsToClosed(adj, p, q, L, after - before);
        assert LeadsToClosed(adj, [w] + p, w, L, after - before);
      }
    }
    CascadeInduction(adj, before, after, local);
  }

  /** p walks from w along dependencies inside L and ends in `goals`. */
  ghost predicate LeadsToClosed(adj: Adjacency, p: seq<nat>, w: nat, L: set<nat>, goals: set<nat>) {
    && |p| > 1 && Walk(adj, p) && p[0] == w && p[|p| - 1] in goals
    && forall i :: 0 <= i < |p| - 1 ==> p[i] in L
  }

  /** Newly closed nodes and their cascade never overlap. */
  lemma CascadeIsOpen(adj: Adjacency, before: set<nat>, after: set<nat>)
    ensures Cascade(adj, before, after) !! after
    ensures forall w: nat :: w in Cascade(adj, before, after) ==> w < |adj|
    ensures Direct(adj, before, after) <= Cascade(adj, before, after)
  {
    CascadeJustified(adj, before, after);
    var L := Cascade(adj, before, after);
    forall w: nat | w in Direct(adj, before, after) ensures w in L {
      UnblocksMore(adj, before, after, {}, L, w);
    }
  }

  /** Closing nothing new unblocks nothing. */
  lemma CascadeOfNothing(adj: Adjacency, before: set<nat>)
    ensures Cascade(adj, before, before) == {} && Direct(adj, before, before) == {}
  {
  }

  /** An order in which newly completable nodes can be completed, one after the other. */
  ghost predicate Schedule(adj: Adjacency, before: set<nat>, after: set<nat>, order: seq<nat>) {
    forall i :: 0 <= i < |order| ==> Unblocks(adj, before, after, Elements(order[..i]), order[i])
  }

  /** No schedule gets past the cascade. */
  lemma {:induction false} ScheduleInCascade(adj: Adjacency, before: set<nat>, after: set<nat>, order: seq<nat>)
    requires Schedule(adj, before, after, order)
    ensures Elements(order) <= Cascade(adj, before, after)
  {
    if order != [] {
      var front, w := order[..|order| - 1], order[|order| - 1];
      assert forall i :: 0 <= i < |front| ==> front[..i] == order[..i];
      ScheduleInCascade(adj, before, after, front);
      UnblocksMore(adj, before, after, Elements(front), Cascade(adj, before, after), w);
      CascadeIsLeast(adj, before, after);
      assert order == front + [w];
    }
  }
}
