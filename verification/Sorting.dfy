/** Sorting by a strict total order. The sorts of the modelled programs are library calls;
    what they return is pinned down here by the order alone. */
module Sorting {
  import opened Sequences

  ghost predicate StrictTotalOn<T(!new)>(less: (T, T) -> bool, S: set<T>) {
    && (forall x :: x in S ==> !less(x, x))
    && (forall x, y, z :: x in S && y in S && z in S && less(x, y) && less(y, z) ==> less(x, z))
    && (forall x, y :: x in S && y in S && x != y ==> less(x, y) || less(y, x))
  }

  ghost predicate SortedBy<T>(less: (T, T) -> bool, s: seq<T>) {
    forall i, j :: 0 <= i < j < |s| ==> less(s[i], s[j])
  }

  function Insert<T>(less: (T, T) -> bool, x: T, s: seq<T>): seq<T> {
    if s == [] then [x]
    else if less(s[0], x) then [s[0]] + Insert(less, x, s[1..])
    else [x] + s
  }

  function Sort<T>(less: (T, T) -> bool, s: seq<T>): seq<T> {
    if s == [] then [] else Insert(less, s[0], Sort(less, s[1..]))
  }

  lemma {:induction false} InsertMultiset<T>(less: (T, T) -> bool, x: T, s: seq<T>)
    ensures multiset(Insert(less, x, s)) == multiset(s) + multiset{x}
  {
    if s != [] {
      assert s == [s[0]] + s[1..];
      InsertMultiset(less, x, s[1..]);
    }
  }

  lemma {:induction false} SortPermutes<T>(less: (T, T) -> bool, s: seq<T>)
    ensures multiset(Sort(less, s)) == multiset(s)
  {
    if s != [] {
      assert s == [s[0]] + s[1..];
      SortPermutes(less, s[1..]);
      InsertMultiset(less, s[0], Sort(less, s[1..]));
    }
  }

  lemma SortSingle<T>(less: (T, T) -> bool, x: T)
    ensures Sort(less, [x]) == [x]
  {
    assert [x][1..] == [];
  }

  lemma SortMembers<T>(less: (T, T) -> bool, s: seq<T>)
    ensures |Sort(less, s)| == |s| && forall x :: x in Sort(less, s) <==> x in s
  {
    SortPermutes(less, s);
    assert |multiset(Sort(less, s))| == |multiset(s)|;
    assert forall x :: x in s <==> x in multiset(s);
    assert forall x :: x in Sort(less, s) <==> x in multiset(Sort(less, s));
  }

  lemma {:induction false} InsertSorted<T(!new)>(less: (T, T) -> bool, x: T, s: seq<T>)
    requires SortedBy(less, s) && x !in s && StrictTotalOn(less, Elements(s) + {x})
    ensures SortedBy(less, Insert(less, x, s))
  {
    if s != [] && less(s[0], x) {
      var rest := s[1..];
      assert Elements(rest) + {x} <= Elements(s) + {x};
      InsertSorted(less, x, rest);
      InsertMultiset(less, x, rest);
      var r := Insert(less, x, rest);
      forall i | 0 <= i < |r| ensures less(s[0], r[i]) {
        assert r[i] in multiset(r);
        assert r[i] == x || r[i] in rest;
      }
    } else if s != [] {
      assert s[0] in Elements(s);
      forall i | 0 <= i < |s| ensures less(x, s[i]) {
        assert s[i] in Elements(s);
      }
    }
  }

  lemma {:induction false} SortSorts<T(!new)>(less: (T, T) -> bool, s: seq<T>)
    requires Distinct(s) && StrictTotalOn(less, Elements(s))
    ensures SortedBy(less, Sort(less, s))
  {
    if s != [] {
      var rest := s[1..];
      assert Elements(rest) <= Elements(s);
      SortSorts(less, rest);
      SortMembers(less, rest);
      assert Elements(Sort(less, rest)) + {s[0]} <= Elements(s);
      InsertSorted(less, s[0], Sort(less, rest));
    }
  }

  // ----- orders in which different elements may tie

  ghost predicate WeakOrder<T(!new)>(less: (T, T) -> bool) {
    && (forall x, y :: less(x, y) ==> !less(y, x))
    && (forall x, y, z :: !less(x, y) && !less(y, z) ==> !less(x, z))
  }

  ghost predicate InOrder<T>(less: (T, T) -> bool, s: seq<T>) {
    forall i, j :: 0 <= i < j < |s| ==> !less(s[j], s[i])
  }

  lemma {:induction false} InsertKeepsOrder<T(!new)>(less: (T, T) -> bool, x: T, s: seq<T>)
    requires WeakOrder(less) && InOrder(less, s)
    ensures InOrder(less, Insert(less, x, s))
  {
    if s != [] && less(s[0], x) {
      var rest := Insert(less, x, s[1..]);
      InsertKeepsOrder(less, x, s[1..]);
      InsertMultiset(less, x, s[1..]);
      forall i | 0 <= i < |rest| ensures !less(rest[i], s[0]) {
        assert rest[i] in multiset(rest);
        assert rest[i] == x || rest[i] in s[1..];
      }
    }
  }

  lemma {:induction false} SortKeepsOrder<T(!new)>(less: (T, T) -> bool, s: seq<T>)
    requires WeakOrder(less)
    ensures InOrder(less, Sort(less, s))
  {
    if s != [] {
      SortKeepsOrder(less, s[1..]);
      InsertKeepsOrder(less, s[0], Sort(less, s[1..]));
    }
  }

  lemma {:induction false} InsertIsStable<T(!new)>(less: (T, T) -> bool, keep: T -> bool, x: T, s: seq<T>)
    requires forall y, z :: keep(y) && keep(z) ==> !less(y, z)
    ensures Filter(keep, Insert(less, x, s)) == Filter(keep, [x]) + Filter(keep, s)
  {
    if s != [] && less(s[0], x) {
      InsertIsStable(less, keep, x, s[1..]);
      assert Insert(less, x, s) == [s[0]] + Insert(less, x, s[1..]);
    } else {
      assert ([x] + s)[1..] == s;
    }
  }

  /** Sorting is stable: elements among which none is before another keep their order. */
  lemma {:induction false} SortIsStable<T(!new)>(less: (T, T) -> bool, keep: T -> bool, s: seq<T>)
    requires forall y, z :: keep(y) && keep(z) ==> !less(y, z)
    ensures Filter(keep, Sort(less, s)) == Filter(keep, s)
  {
    if s != [] {
      SortIsStable(less, keep, s[1..]);
      InsertIsStable(less, keep, s[0], Sort(less, s[1..]));
    }
  }

  /** Any two sorted lists with the same members are equal. */
  lemma {:induction false} SortedUnique<T(!new)>(less: (T, T) -> bool, s: seq<T>, t: seq<T>)
    requires SortedBy(less, s) && SortedBy(less, t) && StrictTotalOn(less, Elements(s))
    requires |s| == |t| && forall x :: x in s <==> x in t
    ensures s == t
    decreases |s|
  {
    if s != [] {
      assert s[0] in t && t[0] in s;
      FirstIsLeast(less, s, t);
      var s', t' := s[1..], t[1..];
      forall x ensures x in s' <==> x in t' {
        assert x in s' <==> x in s && x != s[0] by { RestWithoutFirst(less, s, Elements(s)); }
        assert x in t' <==> x in t && x != t[0] by { RestWithoutFirst(less, t, Elements(s)); }
      }
      assert Elements(s') <= Elements(s);
      SortedUnique(less, s', t');
      assert s == [s[0]] + s' && t == [t[0]] + t';
    }
  }

  lemma RestWithoutFirst<T(!new)>(less: (T, T) -> bool, s: seq<T>, S: set<T>)
    requires s != [] && SortedBy(less, s) && StrictTotalOn(less, S) && Elements(s) <= S
    ensures forall x :: x in s[1..] <==> x in s && x != s[0]
  {
  }

  lemma FirstIsLeast<T(!new)>(less: (T, T) -> bool, s: seq<T>, t: seq<T>)
    requires s != [] && t != [] && s[0] in t && t[0] in s
    requires SortedBy(less, s) && SortedBy(less, t) && StrictTotalOn(less, Elements(s))
    ensures s[0] == t[0]
  {
  }

  /** Sorting looks at keys only. */
  lemma {:induction false} SortByKey<T(!new), K>(
    key: T -> K, less: (K, K) -> bool, byKey: (T, T) -> bool, s: seq<T>)
    requires forall x, y :: byKey(x, y) == less(key(x), key(y))
    ensures Map(key, Sort(byKey, s)) == Sort(less, Map(key, s))
  {
    if s != [] {
      SortByKey(key, less, byKey, s[1..]);
      InsertByKey(key, less, byKey, s[0], Sort(byKey, s[1..]));
      MapUnfolds(key, s);
    }
  }

  lemma {:induction false} InsertByKey<T(!new), K>(
    key: T -> K, less: (K, K) -> bool, byKey: (T, T) -> bool, x: T, s: seq<T>)
    requires forall x, y :: byKey(x, y) == less(key(x), key(y))
    ensures Map(key, Insert(byKey, x, s)) == Insert(less, key(x), Map(key, s))
  {
    if s != [] {
      InsertByKey(key, less, byKey, x, s[1..]);
      MapUnfolds(key, s);
    }
  }

  lemma MapUnfolds<T, K>(key: T -> K, s: seq<T>)
    requires s != []
    ensures Map(key, s)[0] == key(s[0]) && Map(key, s)[1..] == Map(key, s[1..])
  {
  }

  lemma {:induction false} FilterMember<T>(keep: T -> bool, s: seq<T>, x: T)
    ensures x in Filter(keep, s) <==> x in s && keep(x)
  {
    if s != [] {
      assert s == [s[0]] + s[1..];
      FilterMember(keep, s[1..], x);
    }
  }

  lemma {:induction false} FilterSorted<T>(less: (T, T) -> bool, keep: T -> bool, s: seq<T>)
    requires SortedBy(less, s)
    ensures SortedBy(less, Filter(keep, s))
  {
    if s != [] {
      var rest := Filter(keep, s[1..]);
      FilterSorted(less, keep, s[1..]);
      forall i | 0 <= i < |rest| ensures less(s[0], rest[i]) {
        FilterMember(keep, s[1..], rest[i]);
        assert rest[i] in s[1..];
        var j :| 0 <= j < |s[1..]| && s[1..][j] == rest[i];
        assert less(s[0], s[j + 1]);
      }
    }
  }

  lemma {:induction false} FilterPush<T>(keep: T -> bool, s: seq<T>, x: T)
    ensures Filter(keep, s + [x]) == Filter(keep, s) + (if keep(x) then [x] else [])
  {
    if s != [] {
      FilterPush(keep, s[1..], x);
      assert (s + [x])[1..] == s[1..] + [x];
    }
  }

  ghost function Places<T>(keep: T -> bool, s: seq<T>): set<int> {
    set i | 0 <= i < |s| && keep(s[i])
  }

  /** A filtered list has as many entries as there are places that are kept. */
  lemma {:induction false} FilterSize<T>(keep: T -> bool, s: seq<T>)
    ensures |Filter(keep, s)| == |Places(keep, s)|
  {
    if s != [] {
      var front, last := s[..|s| - 1], |s| - 1;
      assert s == front + [s[last]];
      FilterSize(keep, front);
      FilterPush(keep, front, s[last]);
      assert Places(keep, s) == Places(keep, front) + (if keep(s[last]) then {last} else {});
    }
  }

  lemma {:induction false} FilterDistinct<T>(keep: T -> bool, s: seq<T>)
    requires Distinct(s)
    ensures Distinct(Filter(keep, s))
  {
    if s != [] {
      var rest := Filter(keep, s[1..]);
      FilterDistinct(keep, s[1..]);
      forall i | 0 <= i < |rest| ensures rest[i] != s[0] {
        FilterMember(keep, s[1..], rest[i]);
        assert rest[i] in s[1..];
      }
    }
  }
}
