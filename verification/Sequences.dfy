/** Facts about finite sequences that several components share. */
module Sequences {

  newtype byte = x: int | 0 <= x < 256

  datatype Option<+T> = None | Some(value: T)

  predicate Distinct<T(==)>(s: seq<T>) {
    forall i, j :: 0 <= i < j < |s| ==> s[i] != s[j]
  }

  function Elements<T>(s: seq<T>): set<T> {
    set x | x in s
  }

  predicate AllBelow(s: seq<nat>, n: nat) {
    forall i :: 0 <= i < |s| ==> s[i] < n
  }

  predicate Ascending(s: seq<nat>) {
    forall i, j :: 0 <= i < j < |s| ==> s[i] < s[j]
  }

  function Filter<T>(keep: T -> bool, s: seq<T>): seq<T> {
    if s == [] then []
    else (if keep(s[0]) then [s[0]] else []) + Filter(keep, s[1..])
  }

  function Map<T, U>(f: T -> U, s: seq<T>): (r: seq<U>)
    ensures |r| == |s| && forall i :: 0 <= i < |s| ==> r[i] == f(s[i])
  {
    seq(|s|, i requires 0 <= i < |s| => f(s[i]))
  }

  /** A duplicate-free list has as many entries as distinct values. */
  lemma {:induction false} DistinctSize<T>(s: seq<T>)
    requires Distinct(s)
    ensures |Elements(s)| == |s|
  {
    if s != [] {
      var front := s[..|s| - 1];
      DistinctSize(front);
      assert s == front + [s[|s| - 1]] && s[|s| - 1] !in front;
      assert Elements(s) == Elements(front) + {s[|s| - 1]};
    }
  }

  lemma {:induction false} BoundedSetSize(xs: set<nat>, n: nat)
    requires forall x :: x in xs ==> x < n
    ensures |xs| <= n
  {
    if n == 0 {
      assert xs == {};
    } else {
      BoundedSetSize(xs - {n - 1}, n - 1);
      assert xs <= (xs - {n - 1}) + {n - 1};
    }
  }

  /** A duplicate-free list of numbers below n has at most n entries. */
  lemma DistinctBelow(s: seq<nat>, n: nat)
    requires Distinct(s) && AllBelow(s, n)
    ensures |s| <= n
  {
    DistinctSize(s);
    BoundedSetSize(Elements(s), n);
  }

  lemma {:induction false} DistinctMultiplicity<T>(s: seq<T>, x: T)
    requires Distinct(s)
    ensures multiset(s)[x] == if x in s then 1 else 0
  {
    if s != [] {
      var front := s[..|s| - 1];
      DistinctMultiplicity(front, x);
      assert s == front + [s[|s| - 1]];
    }
  }

  lemma SameSize<T>(s: seq<T>, t: seq<T>)
    requires Distinct(s) && Distinct(t) && forall x :: x in s <==> x in t
    ensures |s| == |t|
  {
    DistinctSize(s);
    DistinctSize(t);
    assert Elements(s) == Elements(t);
  }

  /** Two duplicate-free lists with the same members are permutations of one another. */
  lemma DistinctPermutation<T>(s: seq<T>, t: seq<T>)
    requires Distinct(s) && Distinct(t)
    requires forall x :: x in s <==> x in t
    ensures multiset(s) == multiset(t)
  {
    forall x ensures multiset(s)[x] == multiset(t)[x] {
      DistinctMultiplicity(s, x);
      DistinctMultiplicity(t, x);
    }
  }

  lemma {:induction false} AscendingUnique(s: seq<nat>, t: seq<nat>)
    requires |s| == |t| && Ascending(s) && Ascending(t) && forall x :: x in s <==> x in t
    ensures s == t
  {
    if s != [] {
      assert s[0] in t;
      var a, b := s[|s| - 1], t[|t| - 1];
      assert a in t && b in s;
      assert a == b;
      var s', t' := s[..|s| - 1], t[..|t| - 1];
      forall x: nat ensures x in s' <==> x in t' {
        assert x in s' <==> x in s && x != a;
        assert x in t' <==> x in t && x != b;
      }
      AscendingUnique(s', t');
      assert s == s' + [a] && t == t' + [b];
    }
  }

  /** The first element of s, found in a permutation t of s. */
  lemma TakeOut<T>(s: seq<T>, t: seq<T>) returns (i: nat)
    requires multiset(s) == multiset(t) && s != []
    ensures i < |t| && t[i] == s[0] && multiset(s[1..]) == multiset(t[..i] + t[i + 1..])
  {
    assert s[0] in multiset(s);
    i :| 0 <= i < |t| && t[i] == s[0];
    assert t == t[..i] + [t[i]] + t[i + 1..];
    assert s == [s[0]] + s[1..];
    assert multiset(s[1..]) == multiset(s) - multiset{s[0]};
  }

  lemma MapPullsOut<T, U>(f: T -> U, t: seq<T>, i: nat)
    requires i < |t|
    ensures multiset(Map(f, t)) == multiset(Map(f, t[..i] + t[i + 1..])) + multiset{f(t[i])}
  {
    var all, others := Map(f, t), Map(f, t[..i] + t[i + 1..]);
    assert others == all[..i] + all[i + 1..];
    assert all == all[..i] + [all[i]] + all[i + 1..];
  }

  lemma MapSplits<T, U>(f: T -> U, s: seq<T>)
    requires s != []
    ensures multiset(Map(f, s)) == multiset(Map(f, s[1..])) + multiset{f(s[0])}
  {
    assert Map(f, s) == [f(s[0])] + Map(f, s[1..]);
  }

  /** Mapping keeps permutations. */
  lemma {:induction false} MapPermutes<T, U>(f: T -> U, s: seq<T>, t: seq<T>)
    requires multiset(s) == multiset(t)
    ensures multiset(Map(f, s)) == multiset(Map(f, t))
    decreases |s|
  {
    assert |s| == |multiset(s)| == |multiset(t)| == |t|;
    if s != [] {
      var i := TakeOut(s, t);
      MapPermutes(f, s[1..], t[..i] + t[i + 1..]);
      MapPullsOut(f, t, i);
      MapSplits(f, s);
    }
  }

  lemma RemoveOne<T>(t: seq<T>, i: nat)
    requires i < |t|
    ensures multiset(t) == multiset(t[..i] + t[i + 1..]) + multiset{t[i]}
  {
    assert t == t[..i] + [t[i]] + t[i + 1..];
  }

  /** An element of t with the image of the first element of s. */
  lemma TakeOutImage<T, U>(f: T -> U, s: seq<T>, t: seq<T>) returns (i: nat)
    requires s != [] && multiset(Map(f, s)) == multiset(Map(f, t))
    ensures i < |t| && f(t[i]) == f(s[0])
    ensures multiset(Map(f, s[1..])) == multiset(Map(f, t[..i] + t[i + 1..]))
  {
    assert Map(f, s)[0] in multiset(Map(f, t));
    i :| 0 <= i < |t| && Map(f, t)[i] == f(s[0]);
    MapPullsOut(f, t, i);
    MapSplits(f, s);
    assert multiset(Map(f, s[1..])) == multiset(Map(f, s)) - multiset{f(s[0])};
  }

  /** Where f tells elements apart, it tells their multisets apart. */
  lemma {:induction false} MapInjective<T, U>(f: T -> U, s: seq<T>, t: seq<T>)
    requires forall x, y :: x in s && y in t && f(x) == f(y) ==> x == y
    requires multiset(Map(f, s)) == multiset(Map(f, t))
    ensures multiset(s) == multiset(t)
    decreases |s|
  {
    if s == [] {
      assert |multiset(Map(f, t))| == |t|;
    } else {
      var i := TakeOutImage(f, s, t);
      assert s[0] in s && t[i] in t;
      RemoveOne(t, i);
      MapInjective(f, s[1..], t[..i] + t[i + 1..]);
      assert s == [s[0]] + s[1..];
    }
  }
}
